/**
  The registers the bring-up procedures and SystemCoreClockUpdate use, and these procedures
  themselves.  `device` is what the hardware shows at each read: the proofs hold for every such
  history.  The polling loops that wait without a timeout are observed for `fuel` reads each;
  as `fuel` is arbitrary, every finite prefix of every run is covered.
*/
module ClockBoard {
  import opened Words
  import opened BitFields
  import opened ClockTree
  import opened ClockBringUp

  datatype Outcome =
    | Switched   // the procedure returned
    | Halted     // it found the oscillator unstable and loops forever
    | Waiting    // it was still polling a flag when the observation ended

  // ----- bits of overlaid words -----

  /** Masking with one bit tests it. */
  lemma MaskTests(v: u32, k: nat)
    requires k < 32
    ensures And(v, BitMask(k)) == 0 <==> !Bit(v, k)
  {
    hide *;
    WordBits();
    FieldBits();
    var masked := And(v, BitMask(k));
    assert Bit(masked, k) <==> Bit(v, k);
    ZeroBit(k);
    if !Bit(v, k) {
      forall i: nat | i < 32
        ensures Bit(masked, i) <==> Bit(0, i)
      {
        ZeroBit(i);
      }
      WordExtensionality(masked, 0);
    }
  }

  lemma OverlayBit(software: u32, hardware: u32, mask: u32, i: nat)
    requires i < 32
    ensures Bit(Overlay(software, hardware, mask), i) <==> if Bit(mask, i) then Bit(hardware, i) else Bit(software, i)
  {
    WordBits();
  }

  lemma SetBit(w: u32, k: nat, i: nat)
    requires k < 32
    ensures Bit(Or(w, BitMask(k)), i) <==> i == k || Bit(w, i)
  {
    hide *;
    WordBits();
    FieldBits();
  }

  /** The flags are hardware's, the enable bits software's. */
  lemma CtlBits()
    ensures Bit(CTL_STATUS, 1) && Bit(CTL_STATUS, 17) && Bit(CTL_STATUS, PLLSTB)
    ensures !Bit(CTL_STATUS, 0) && !Bit(CTL_STATUS, 16) && !Bit(CTL_STATUS, PLLEN)
  {
    hide Halved, Pow2;
    PowersOfTwo();
    HalvedValue(CTL_STATUS, 16);
    HalvedBit(CTL_STATUS, 16, 0);
    HalvedBit(CTL_STATUS, 16, 1);
    HalvedValue(CTL_STATUS, 24);
    HalvedBit(CTL_STATUS, 24, 0);
    HalvedBit(CTL_STATUS, 24, 1);
    assert Bit(0x2A02, 1) && !Bit(0x2A02, 0) && !Bit(0x2A, 0) && Bit(0x2A, 1);
  }

  lemma Cfg0Bits()
    ensures CFG0_STATUS == Bits(2, 3) && Bit(CFG0_STATUS, SCSS_PLLP)
  {
    Widths();
    FullField(2, 3);
    FieldFits(2, 3, 3);
  }

  /** Writing back a register read with its status bits, with more bits set, changes only these. */
  lemma StoredAfterSet(software: u32, hardware: u32, mask: u32, set0: u32)
    requires And(software, mask) == 0 && And(set0, mask) == 0
    ensures And(Or(Overlay(software, hardware, mask), set0), Not(mask)) == Or(software, set0)
    ensures And(Or(software, set0), mask) == 0
  {
    hide *;
    WordBits();
    var l, r := And(Or(Overlay(software, hardware, mask), set0), Not(mask)), Or(software, set0);
    forall i: nat | i < 32
      ensures Bit(l, i) <==> Bit(r, i)
      ensures Bit(And(r, mask), i) <==> Bit(0, i)
    {
      OverlayBit(software, hardware, mask, i);
      ZeroBit(i);
      assert !Bit(And(software, mask), i) && !Bit(And(set0, mask), i);
    }
    WordExtensionality(l, r);
    WordExtensionality(And(r, mask), 0);
  }

  lemma StoredAfterClear(software: u32, hardware: u32, mask: u32, clear: u32)
    requires And(software, mask) == 0
    ensures And(And(Overlay(software, hardware, mask), Not(clear)), Not(mask)) == And(software, Not(clear))
    ensures And(And(software, Not(clear)), mask) == 0
  {
    hide *;
    WordBits();
    var l, r := And(And(Overlay(software, hardware, mask), Not(clear)), Not(mask)), And(software, Not(clear));
    forall i: nat | i < 32
      ensures Bit(l, i) <==> Bit(r, i)
      ensures Bit(And(r, mask), i) <==> Bit(0, i)
    {
      OverlayBit(software, hardware, mask, i);
      ZeroBit(i);
      assert !Bit(And(software, mask), i);
    }
    WordExtensionality(l, r);
    WordExtensionality(And(r, mask), 0);
  }

  lemma DisjointBit(mask: u32, k: nat)
    requires k < 32 && !Bit(mask, k)
    ensures And(BitMask(k), mask) == 0
  {
    hide *;
    WordBits();
    FieldBits();
    forall i: nat | i < 32
      ensures Bit(And(BitMask(k), mask), i) <==> Bit(0, i)
    {
      ZeroBit(i);
    }
    WordExtensionality(And(BitMask(k), mask), 0);
  }

  /** A field is untouched by removing bits outside it. */
  lemma FieldOutside(w: u32, mask: u32, c: nat, d: nat, a: nat, b: nat)
    requires a <= b <= 31 && c <= d <= 31 && Disjoint(a, b, c, d) && mask == Bits(c, d)
    ensures GetBits(And(w, Not(mask)), a, b) == GetBits(w, a, b)
  {
    assert b < c || d < a;
    hide *;
    WordBits();
    FieldBits();
    forall i: nat | i < 32
      ensures Bit(GetBits(And(w, Not(mask)), a, b), i) <==> Bit(GetBits(w, a, b), i)
    {
    }
    WordExtensionality(GetBits(And(w, Not(mask)), a, b), GetBits(w, a, b));
  }

  // ----- RCU_CFG0 along the procedure -----

  /** AHB divided by 1, APB2 by 2, APB1 by 4: the values or-ed into RCU_CFG0. */
  function Dividers(entry: u32): u32 {
    Or(Or(Or(entry, Field(4, 7, 0)), Field(13, 15, 4)), Field(10, 12, 5))
  }

  function WithPllSelected(entry: u32): u32 {
    Or(And(Dividers(entry), Not(Bits(0, 1))), Field(0, 1, 2))
  }

  lemma DividerFields(entry: u32)
    ensures var w := Dividers(entry);
            Prescaled(entry, w) && GetBits(w, 0, 1) == GetBits(entry, 0, 1)
  {
    ThreeFieldsOred(entry, 4, 7, 4);
    ThreeFieldsOred(entry, 13, 15, 4);
    ThreeFieldsOred(entry, 10, 12, 5);
    ThreeFieldsOred(entry, 0, 1, 0);
  }

  lemma ThreeFieldsOred(entry: u32, a: nat, b: nat, v: u32)
    requires (a, b, v) in {(4, 7, 4), (13, 15, 4), (10, 12, 5), (0, 1, 0)}
    ensures GetBits(Dividers(entry), a, b)
            == if a == 13 || a == 10 then Or(GetBits(entry, a, b), v) else GetBits(entry, a, b)
  {
    var x, y, z := Field(4, 7, 0), Field(13, 15, 4), Field(10, 12, 5);
    GetOr(Or(Or(entry, x), y), z, a, b);
    GetOr(Or(entry, x), y, a, b);
    GetOr(entry, x, a, b);
    SmallField(4, 7, 0);
    SmallField(13, 15, 4);
    SmallField(10, 12, 5);
    if a != 4 { GetDisjointField(a, b, 4, 7, 0); }
    if a != 13 { GetDisjointField(a, b, 13, 15, 4); }
    if a != 10 { GetDisjointField(a, b, 10, 12, 5); }
    OrWithZero(GetBits(entry, a, b));
    OrWithZero(Or(GetBits(entry, a, b), v));
  }

  lemma OrWithZero(x: u32)
    ensures Or(x, 0) == x
  {
    OrZero(x);
  }

  lemma SmallField(a: nat, b: nat, v: u32)
    requires (a, b, v) in {(4, 7, 0), (13, 15, 4), (10, 12, 5), (0, 1, 2)}
    ensures GetBits(Field(a, b, v), a, b) == v
  {
    hide GetBits, Field;
    PowersOfTwo();
    GetField(a, b, v);
  }

  lemma SelectedFields(entry: u32)
    ensures var w := WithPllSelected(entry);
            && Prescaled(entry, w) && SelectsPll(w)
            && GetBits(And(Dividers(entry), Not(Bits(0, 1))), 0, 1) == 0
  {
    DividerFields(entry);
    SelectedField(entry, 4, 7);
    SelectedField(entry, 13, 15);
    SelectedField(entry, 10, 12);
    ClearedField(Dividers(entry));
    SmallField(0, 1, 2);
    GetOrDisjoint(And(Dividers(entry), Not(Bits(0, 1))), Field(0, 1, 2), 0, 1);
  }

  lemma SelectedField(entry: u32, a: nat, b: nat)
    requires 4 <= a <= b <= 31
    ensures GetBits(WithPllSelected(entry), a, b) == GetBits(Dividers(entry), a, b)
  {
    FieldOutside(Dividers(entry), Bits(0, 1), 0, 1, a, b);
    GetDisjointField(a, b, 0, 1, 2);
    GetOrDisjoint(And(Dividers(entry), Not(Bits(0, 1))), Field(0, 1, 2), a, b);
  }

  lemma ClearedField(w: u32)
    ensures GetBits(And(w, Not(Bits(0, 1))), 0, 1) == 0
  {
    hide *;
    WordBits();
    FieldBits();
    forall i: nat | i < 32
      ensures Bit(GetBits(And(w, Not(Bits(0, 1))), 0, 1), i) <==> Bit(0, i)
    {
      ZeroBit(i);
    }
    WordExtensionality(GetBits(And(w, Not(Bits(0, 1))), 0, 1), 0);
  }

  // ----- the board -----

  class Board {
    const device: nat -> Status
    /** HXTAL_VALUE */
    const hxtal: u32
    var ctl: u32
    var cfg0: u32
    var pll: u32
    var apb1en: u32
    var pmuCtl: u32
    /** How many reads have shown a status so far. */
    var now: nat
    var systemCoreClock: u32
    /** The register accesses of the current run. */
    ghost var run: seq<Event>

    /** Only software bits are stored. */
    ghost predicate Clean()
      reads this
    {
      And(ctl, CTL_STATUS) == 0 && And(cfg0, CFG0_STATUS) == 0
    }

    /** The hardware never shows the oscillator of a source stable. */
    ghost predicate NeverStable(source: Source) {
      forall k: nat {:trigger device(k)} :: !Bit(device(k).ctl, if source.Hxtal? then 17 else 1)
    }

    /** The hardware always shows the flags a bring-up waits for. */
    ghost predicate AlwaysReady(source: Source) {
      forall k: nat {:trigger device(k)} ::
        && Bit(device(k).ctl, if source.Hxtal? then 17 else 1) && Bit(device(k).ctl, 25)
        && Bit(device(k).pmuCs, 16) && Bit(device(k).pmuCs, 17) && Bit(device(k).cfg0, 3)
    }

    constructor (history: nat -> Status, crystal: u32, pll0: u32)
      ensures device == history && hxtal == crystal
      ensures Clean() && ctl == 0 && cfg0 == 0 && pll == pll0 && apb1en == 0 && pmuCtl == 0 && run == []
    {
      device, hxtal := history, crystal;
      ctl, cfg0, pll, apb1en, pmuCtl := 0, 0, pll0, 0, 0;
      now, systemCoreClock, run := 0, 0, [];
    }

    // ----- register accesses -----

    method LoadCtl() returns (v: u32)
      modifies `now, `run
      ensures v == Overlay(ctl, device(old(now)).ctl, CTL_STATUS)
      ensures now == old(now) + 1 && run == old(run) + [ReadCtl(v)]
    {
      v := Overlay(ctl, device(now).ctl, CTL_STATUS);
      now, run := now + 1, run + [ReadCtl(v)];
    }

    method LoadCfg0() returns (v: u32)
      modifies `now, `run
      ensures v == Overlay(cfg0, device(old(now)).cfg0, CFG0_STATUS)
      ensures now == old(now) + 1 && run == old(run) + [ReadCfg0(v)]
    {
      v := Overlay(cfg0, device(now).cfg0, CFG0_STATUS);
      now, run := now + 1, run + [ReadCfg0(v)];
    }

    method LoadPmuCs() returns (v: u32)
      modifies `now, `run
      ensures v == device(old(now)).pmuCs
      ensures now == old(now) + 1 && run == old(run) + [ReadPmuCs(v)]
    {
      v := device(now).pmuCs;
      now, run := now + 1, run + [ReadPmuCs(v)];
    }

    /** RCU_CTL |= BIT(k) */
    method SetCtlBit(k: nat)
      requires Clean() && k < 32 && !Bit(CTL_STATUS, k)
      modifies `ctl, `now, `run
      ensures Clean() && ctl == Or(old(ctl), BitMask(k))
      ensures |run| == |old(run)| + 2 && run[..|old(run)|] == old(run)
      ensures var v, w := run[|old(run)|], run[|old(run)| + 1];
              && v.ReadCtl? && w == WroteCtl(Or(v.v, BitMask(k)))
              && (forall i: nat | i < 32 && !Bit(CTL_STATUS, i) :: Bit(v.v, i) <==> Bit(old(ctl), i))
    {
      var v := LoadCtl();
      forall i: nat | i < 32 && !Bit(CTL_STATUS, i)
        ensures Bit(v, i) <==> Bit(ctl, i)
      {
        OverlayBit(ctl, device(old(now)).ctl, CTL_STATUS, i);
      }
      DisjointBit(CTL_STATUS, k);
      StoredAfterSet(ctl, device(old(now)).ctl, CTL_STATUS, BitMask(k));
      var w := Or(v, BitMask(k));
      ctl, run := And(w, Not(CTL_STATUS)), run + [WroteCtl(w)];
    }

    /** RCU_CFG0 |= field */
    method SetCfg0(field: u32)
      requires Clean() && And(field, CFG0_STATUS) == 0
      modifies `cfg0, `now, `run
      ensures Clean() && cfg0 == Or(old(cfg0), field)
      ensures Cfg0Access(old(run), run, cfg0)
    {
      var v := LoadCfg0();
      StoredAfterSet(cfg0, device(old(now)).cfg0, CFG0_STATUS, field);
      var w := Or(v, field);
      cfg0, run := And(w, Not(CFG0_STATUS)), run + [WroteCfg0(w)];
    }

    /** RCU_CFG0 &= ~mask */
    method ClearCfg0(mask: u32)
      requires Clean()
      modifies `cfg0, `now, `run
      ensures Clean() && cfg0 == And(old(cfg0), Not(mask))
      ensures Cfg0Access(old(run), run, cfg0)
    {
      var v := LoadCfg0();
      StoredAfterClear(cfg0, device(old(now)).cfg0, CFG0_STATUS, mask);
      var w := And(v, Not(mask));
      cfg0, run := And(w, Not(CFG0_STATUS)), run + [WroteCfg0(w)];
    }

    /** A read and a write of RCU_CFG0 that leave `stored` in the software bits. */
    static ghost predicate Cfg0Access(before: seq<Event>, after: seq<Event>, stored: u32) {
      && |after| == |before| + 2 && after[..|before|] == before
      && after[|before|].ReadCfg0? && after[|before| + 1].WroteCfg0?
      && And(after[|before| + 1].w, Not(CFG0_STATUS)) == stored
    }

    /** PMU_CTL |= mask */
    method SetPmuCtl(mask: u32)
      modifies `pmuCtl, `run
      ensures pmuCtl == Or(old(pmuCtl), mask) && run == old(run) + [WrotePmuCtl(pmuCtl)]
    {
      pmuCtl := Or(pmuCtl, mask);
      run := run + [WrotePmuCtl(pmuCtl)];
    }

    // ----- the procedure, phase by phase -----

    /** Reads of RCU_CTL, all but the last without the flag; while still waiting, the last too. */
    static ghost predicate Polled(before: seq<Event>, after: seq<Event>, flag: nat, waiting: bool) {
      && |before| <= |after| && (!waiting ==> |before| < |after|)
      && (forall k | |before| <= k < |after| :: after[k].ReadCtl?)
      && (forall k | |before| <= k < |after| - (if waiting then 0 else 1) :: !Bit(after[k].v, flag))
    }

    static lemma PolledOnceMore(before: seq<Event>, after: seq<Event>, flag: nat, v: u32)
      requires Polled(before, after, flag, true)
      ensures Polled(before, after + [ReadCtl(v)], flag, false)
      ensures !Bit(v, flag) ==> Polled(before, after + [ReadCtl(v)], flag, true)
    {
      hide Bit;
    }

    static lemma NotPolled(before: seq<Event>, flag: nat)
      ensures Polled(before, before, flag, true)
    {
    }

    /** The stabilisation loop, in its two forms: it leaves at the first read that shows the flag. */
    method AwaitOscillator(variant: Variant, ghost r: Rules)
      requires r.variant == variant && variant.timeout >= 1
      requires Watch(r, run) in {Stage(1), Stage(2)}
      modifies `now, `run
      ensures Watch(r, run) in {Stage(1), Stage(2)}
      ensures NeverStable(variant.pll.source) ==>
                |run| == |old(run)| + variant.timeout + if variant.testFirst then 1 else 0
      ensures |old(run)| < |run| <= |old(run)| + variant.timeout + if variant.testFirst then 1 else 0
      ensures Polled(old(run), run, if variant.pll.source.Hxtal? then 17 else 1, false)
      ensures |run| < |old(run)| + variant.timeout + (if variant.testFirst then 1 else 0) ==>
                var last := run[|run| - 1];
                last.ReadCtl? && Bit(last.v, if variant.pll.source.Hxtal? then 17 else 1)
    {
      var stable := StableBit(variant.pll.source);
      CtlBits();
      var timeout := 0;
      var waiting := true;
      NotPolled(run, stable);
      hide And, Or, Not, BitMask, Bit, PllWord, SelectsPll, Prescaled, Watch, Polled;
      if variant.testFirst {
        while waiting
          invariant 0 <= timeout <= variant.timeout + 1
          invariant waiting ==> timeout <= variant.timeout
          invariant (waiting ==> |run| == |old(run)| + timeout) && |run| <= |old(run)| + variant.timeout + 1
          invariant Polled(old(run), run, stable, waiting) && (!waiting ==> |old(run)| < |run|)
          invariant !waiting && |run| < |old(run)| + variant.timeout + 1 ==>
                      run[|run| - 1].ReadCtl? && Bit(run[|run| - 1].v, stable)
          invariant Watch(r, run) in {Stage(1), Stage(2)}
          invariant NeverStable(variant.pll.source) ==>
                      |run| == |old(run)| + timeout && (!waiting ==> timeout == variant.timeout + 1)
          decreases variant.timeout + 1 - timeout, waiting
        {
          ghost var before := run;
          var v := LoadCtl();
          PolledOnceMore(old(run), before, stable, v);
          WatchSnoc(r, before, ReadCtl(v));
          MaskTests(v, stable);
          OverlayBit(ctl, device(now - 1).ctl, CTL_STATUS, stable);
          if And(v, BitMask(stable)) != 0 {
            waiting := false;
          } else {
            waiting := variant.timeout != timeout;
            timeout := timeout + 1;
          }
        }
      } else {
        while waiting
          invariant 0 <= timeout <= variant.timeout
          invariant waiting ==> timeout < variant.timeout
          invariant |run| == |old(run)| + timeout
          invariant Polled(old(run), run, stable, waiting) && (!waiting ==> |old(run)| < |run|)
          invariant !waiting && timeout < variant.timeout ==>
                      run[|run| - 1].ReadCtl? && Bit(run[|run| - 1].v, stable)
          invariant Watch(r, run) in {Stage(1), Stage(2)}
          invariant NeverStable(variant.pll.source) && !waiting ==> timeout == variant.timeout
          decreases variant.timeout - timeout, waiting
        {
          timeout := timeout + 1;
          ghost var before := run;
          var v := LoadCtl();
          PolledOnceMore(old(run), before, stable, v);
          WatchSnoc(r, before, ReadCtl(v));
          MaskTests(v, stable);
          OverlayBit(ctl, device(now - 1).ctl, CTL_STATUS, stable);
          waiting := And(v, BitMask(stable)) == 0 && variant.timeout != timeout;
        }
      }
    }

    /** while(0U == (RCU_CTL & RCU_CTL_PLLSTB)) */
    method AwaitPll(fuel: nat, ghost r: Rules) returns (seen: bool)
      requires Watch(r, run) == Stage(4)
      modifies `now, `run
      ensures Watch(r, run) == Stage(if seen then 5 else 4)
      ensures if seen then |run| > 0 && Watch(r, run[..|run| - 1]) == Stage(4) else now == old(now) + fuel
      ensures fuel > 0 && AlwaysReady(r.variant.pll.source) ==> seen
    {
      CtlBits();
      seen := false;
      var polls := 0;
      while !seen && polls < fuel
        invariant polls <= fuel
        invariant Watch(r, run) == Stage(if seen then 5 else 4)
        invariant now == old(now) + polls && (seen ==> |run| > 0 && Watch(r, run[..|run| - 1]) == Stage(4))
        invariant AlwaysReady(r.variant.pll.source) ==> seen || polls == 0
        decreases fuel - polls
      {
        var v := LoadCtl();
        WatchSnoc(r, run[..|run| - 1], ReadCtl(v));
        assert run[..|run| - 1] + [ReadCtl(v)] == run;
        MaskTests(v, PLLSTB);
        OverlayBit(ctl, device(now - 1).ctl, CTL_STATUS, PLLSTB);
        seen := And(v, BitMask(PLLSTB)) != 0;
        polls := polls + 1;
      }
    }

    /** while(0U == (PMU_CS & PMU_CS_HDRF)) and while(0U == (PMU_CS & PMU_CS_HDSRF)) */
    method AwaitHighDrive(flag: nat, fuel: nat, ghost r: Rules, ghost k: nat) returns (seen: bool)
      requires (flag, k) in {(HDRF, 6), (HDSRF, 8)} && Watch(r, run) == Stage(k)
      modifies `now, `run
      ensures Watch(r, run) == Stage(if seen then k + 1 else k)
      ensures if seen then |run| > 0 && Watch(r, run[..|run| - 1]) == Stage(k) else now == old(now) + fuel
      ensures fuel > 0 && AlwaysReady(r.variant.pll.source) ==> seen
    {
      hide And, Or, Not, BitMask, Bit, PllWord, SelectsPll, Prescaled, Watch;
      seen := false;
      var polls := 0;
      while !seen && polls < fuel
        invariant polls <= fuel
        invariant Watch(r, run) == Stage(if seen then k + 1 else k)
        invariant now == old(now) + polls && (seen ==> |run| > 0 && Watch(r, run[..|run| - 1]) == Stage(k))
        invariant AlwaysReady(r.variant.pll.source) ==> seen || polls == 0
        decreases fuel - polls
      {
        var v := LoadPmuCs();
        WatchSnoc(r, run[..|run| - 1], ReadPmuCs(v));
        assert run[..|run| - 1] + [ReadPmuCs(v)] == run;
        MaskTests(v, flag);
        seen := And(v, BitMask(flag)) != 0;
        polls := polls + 1;
      }
    }

    /** while(0U == (RCU_CFG0 & RCU_SCSS_PLLP)) */
    method AwaitSwitch(fuel: nat, ghost r: Rules) returns (seen: bool)
      requires Watch(r, run) == Stage(10)
      modifies `now, `run
      ensures Watch(r, run) == Stage(if seen then 11 else 10)
      ensures if seen then |run| > 0 && Watch(r, run[..|run| - 1]) == Stage(10) else now == old(now) + fuel
      ensures fuel > 0 && AlwaysReady(r.variant.pll.source) ==> seen
    {
      Cfg0Bits();
      hide And, Or, Not, BitMask, Bit, PllWord, SelectsPll, Prescaled, Watch;
      seen := false;
      var polls := 0;
      while !seen && polls < fuel
        invariant polls <= fuel
        invariant Watch(r, run) == Stage(if seen then 11 else 10)
        invariant now == old(now) + polls && (seen ==> |run| > 0 && Watch(r, run[..|run| - 1]) == Stage(10))
        invariant AlwaysReady(r.variant.pll.source) ==> seen || polls == 0
        decreases fuel - polls
      {
        var v := LoadCfg0();
        WatchSnoc(r, run[..|run| - 1], ReadCfg0(v));
        assert run[..|run| - 1] + [ReadCfg0(v)] == run;
        MaskTests(v, SCSS_PLLP);
        OverlayBit(cfg0, device(now - 1).cfg0, CFG0_STATUS, SCSS_PLLP);
        seen := And(v, BitMask(SCSS_PLLP)) != 0;
        polls := polls + 1;
      }
    }

    /** Enables the oscillator, waits for it and checks it. */
    method StartOscillator(variant: Variant, ghost r: Rules) returns (stable: bool)
      requires r.variant == variant && variant.timeout >= 1
      requires Clean() && !Bit(ctl, PLLEN) && run == []
      modifies `ctl, `now, `run
      ensures Clean() && ctl == Or(old(ctl), BitMask(EnableBit(variant.pll.source))) && !Bit(ctl, PLLEN)
      ensures forall i: nat | i < 32 ::
                Bit(ctl, i) <==> Bit(old(ctl), i) || i == if variant.pll.source.Hxtal? then 16 else 0
      ensures Watch(r, run) in {Stage(1), Stage(2)} && (stable ==> Watch(r, run) == Stage(2))
      ensures NeverStable(variant.pll.source) ==>
                !stable && |run| == variant.timeout + if variant.testFirst then 4 else 3
      ensures AlwaysReady(variant.pll.source) ==> stable
    {
      var enable, flag := EnableBit(variant.pll.source), StableBit(variant.pll.source);
      CtlBits();
      hide And, Or, Not, BitMask, Bit, PllWord, SelectsPll, Prescaled;
      SetCtlBit(enable);
      SetBit(run[0].v, enable, PLLEN);
      SetBit(run[0].v, enable, enable);
      forall i: nat | i < 32
        ensures Bit(Or(old(ctl), BitMask(enable)), i) <==> i == enable || Bit(old(ctl), i)
      {
        SetBit(old(ctl), enable, i);
      }
      WatchSnoc(r, [], run[0]);
      WatchSnoc(r, [run[0]], run[1]);
      assert run == [] + [run[0]] + [run[1]];
      AwaitOscillator(variant, r);
      var v := LoadCtl();
      WatchSnoc(r, run[..|run| - 1], ReadCtl(v));
      assert run[..|run| - 1] + [ReadCtl(v)] == run;
      MaskTests(v, flag);
      OverlayBit(ctl, device(now - 1).ctl, CTL_STATUS, flag);
      stable := And(v, BitMask(flag)) != 0;
    }

    /** Powers the regulator up, sets the prescalers and configures and enables the PLL. */
    method ConfigurePll(variant: Variant, ghost r: Rules)
      requires r == Rules(variant, cfg0) && Watch(r, run) == Stage(2)
      requires Clean() && !Bit(ctl, PLLEN) && !SelectsPll(cfg0)
      requires !Bit(pmuCtl, HDEN) && !Bit(pmuCtl, HDS)
      modifies `ctl, `cfg0, `pll, `apb1en, `pmuCtl, `now, `run
      ensures Clean() && Watch(r, run) == Stage(4)
      ensures ctl == Or(old(ctl), BitMask(PLLEN)) && pll == PllWord(variant.pll)
      ensures cfg0 == Dividers(r.entry) && apb1en == Or(old(apb1en), BitMask(PMUEN))
      ensures pmuCtl == Or(old(pmuCtl), Bits(14, 15)) && !Bit(pmuCtl, HDEN) && !Bit(pmuCtl, HDS)
    {
      hide And, Or, Not, BitMask, Bit, Bits, GetBits, PllWord, Prescaled, Dividers, SelectsPll, Watch;
      PowerUp(r);
      SetPrescalers(r);
      WritePll(variant, r);
      EnablePll(r);
    }

    method PowerUp(ghost r: Rules)
      requires Watch(r, run) == Stage(2) && !Bit(pmuCtl, HDEN) && !Bit(pmuCtl, HDS)
      modifies `apb1en, `pmuCtl, `run
      ensures Watch(r, run) == Stage(2) && apb1en == Or(old(apb1en), BitMask(PMUEN))
      ensures pmuCtl == Or(old(pmuCtl), Bits(14, 15)) && !Bit(pmuCtl, HDEN) && !Bit(pmuCtl, HDS)
    {
      apb1en := Or(apb1en, BitMask(PMUEN));
      run := run + [WroteApb1en(apb1en)];
      WatchSnoc(r, old(run), WroteApb1en(apb1en));
      RegulatorBits(pmuCtl);
      ghost var before := run;
      SetPmuCtl(Bits(14, 15));
      WatchSnoc(r, before, WrotePmuCtl(pmuCtl));
    }

    method WritePll(variant: Variant, ghost r: Rules)
      requires r.variant == variant && Watch(r, run) == Stage(2)
      modifies `pll, `run
      ensures Watch(r, run) == Stage(3) && pll == PllWord(variant.pll)
    {
      pll := PllWord(variant.pll);
      run := run + [WrotePll(pll)];
      WatchSnoc(r, old(run), WrotePll(pll));
    }

    /** The three prescaler updates. */
    method SetPrescalers(ghost r: Rules)
      requires Clean() && r.entry == cfg0 && Watch(r, run) == Stage(2) && !SelectsPll(cfg0)
      modifies `cfg0, `now, `run
      ensures Clean() && Watch(r, run) == Stage(2) && cfg0 == Dividers(r.entry)
    {
      StatusFree();
      StillUnselected(cfg0);
      ghost var run0 := run;
      SetCfg0(Field(4, 7, 0));
      UnselectedAccess(r, run0, run, cfg0);
      ghost var run1 := run;
      SetCfg0(Field(13, 15, 4));
      UnselectedAccess(r, run1, run, cfg0);
      ghost var run2 := run;
      SetCfg0(Field(10, 12, 5));
      UnselectedAccess(r, run2, run, cfg0);
    }

    method EnablePll(ghost r: Rules)
      requires Clean() && Watch(r, run) == Stage(3)
      modifies `ctl, `now, `run
      ensures Clean() && Watch(r, run) == Stage(4) && ctl == Or(old(ctl), BitMask(PLLEN))
    {
      CtlBits();
      hide And, Or, Not, BitMask, Bit, PllWord, SelectsPll, Prescaled, Watch;
      ghost var before := run;
      SetCtlBit(PLLEN);
      var v, w := run[|before|], run[|before| + 1];
      SetBit(v.v, PLLEN, PLLEN);
      WatchSnoc(r, before, v);
      WatchSnoc(r, before + [v], w);
      assert run == before + [v] + [w];
    }

    /** High-drive mode: enable, wait, select, wait. */
    method HighDrive(fuel: nat, ghost r: Rules) returns (active: bool)
      requires Watch(r, run) == Stage(5) && !Bit(pmuCtl, HDEN) && !Bit(pmuCtl, HDS)
      modifies `pmuCtl, `now, `run
      ensures if active then Watch(r, run) == Stage(9) else Watch(r, run) in {Stage(6), Stage(8)}
      ensures active ==> pmuCtl == Or(Or(old(pmuCtl), BitMask(HDEN)), BitMask(HDS))
      ensures fuel > 0 && AlwaysReady(r.variant.pll.source) ==> active
    {
      hide And, Or, Not, BitMask, Bit, PllWord, SelectsPll, Prescaled, Watch;
      ghost var before := run;
      SetBit(pmuCtl, HDEN, HDEN);
      SetBit(pmuCtl, HDEN, HDS);
      SetPmuCtl(BitMask(HDEN));
      WatchSnoc(r, before, WrotePmuCtl(pmuCtl));
      active := AwaitHighDrive(HDRF, fuel, r, 6);
      if !active {
        return;
      }
      before := run;
      SetBit(pmuCtl, HDS, HDS);
      SetPmuCtl(BitMask(HDS));
      WatchSnoc(r, before, WrotePmuCtl(pmuCtl));
      active := AwaitHighDrive(HDSRF, fuel, r, 8);
    }

    /** Clears the system clock selection and selects PLLP. */
    method SelectPll(ghost r: Rules)
      requires Clean() && Watch(r, run) == Stage(9) && cfg0 == Dividers(r.entry)
      modifies `cfg0, `now, `run
      ensures Clean() && Watch(r, run) == Stage(10) && cfg0 == WithPllSelected(r.entry)
    {
      StatusFree();
      SelectedFields(r.entry);
      ghost var run0 := run;
      ClearCfg0(Bits(0, 1));
      UnselectedAccess(r, run0, run, cfg0);
      ghost var run1 := run;
      SetCfg0(Field(0, 1, 2));
      SelectingAccess(r, run1, run, cfg0);
    }

    /** One of the procedures system_clock_*_irc16m and system_clock_*_hxtal.  From a board with the
        PLL and high-drive off and PLLP not selected, no history of the hardware makes the run
        violate the order of accesses; it returns only with the PLL in use, and a board whose
        oscillator never stabilises halts without ever selecting the PLL, after a known number of
        register accesses. */
    method BringUp(variant: Variant, fuel: nat) returns (outcome: Outcome)
      requires variant.timeout >= 1
      requires Clean() && !Bit(ctl, PLLEN) && !SelectsPll(cfg0) && !Bit(pmuCtl, HDEN) && !Bit(pmuCtl, HDS)
      modifies `ctl, `cfg0, `pll, `apb1en, `pmuCtl, `now, `run
      ensures Clean()
      ensures var progress := Watch(Rules(variant, old(cfg0)), run);
              match outcome
              case Switched => progress == Stage(11)
              case Halted => progress in {Stage(1), Stage(2)}
              case Waiting => progress in {Stage(4), Stage(6), Stage(8), Stage(10)}
      ensures NeverStable(variant.pll.source) ==>
                outcome == Halted && |run| == variant.timeout + if variant.testFirst then 4 else 3
      ensures fuel > 0 && AlwaysReady(variant.pll.source) ==> outcome == Switched
      ensures forall i: nat | i < 32 ::
                Bit(ctl, i) <==> || Bit(old(ctl), i) || i == (if variant.pll.source.Hxtal? then 16 else 0)
                                 || (i == 24 && outcome != Halted)
      ensures outcome == Halted ==>
                cfg0 == old(cfg0) && pll == old(pll) && apb1en == old(apb1en) && pmuCtl == old(pmuCtl)
      ensures outcome == Switched ==> pll == PllWord(variant.pll) && cfg0 == WithPllSelected(old(cfg0))
      ensures outcome == Switched ==>
                forall i: nat | i < 32 ::
                  && (Bit(cfg0, i) <==> if i <= 1 then i == 1 else Bit(old(cfg0), i) || i in {10, 12, 15})
                  && (Bit(apb1en, i) <==> Bit(old(apb1en), i) || i == 28)
                  && (Bit(pmuCtl, i) <==> Bit(old(pmuCtl), i) || 14 <= i <= 17)
    {
      hide And, Or, Not, BitMask, Bit, Bits, Field, GetBits, PllWord, Prescaled, Dividers, WithPllSelected;
      ghost var r := Rules(variant, cfg0);
      run := [];
      var stable := StartOscillator(variant, r);
      if !stable {
        return Halted;
      }
      ghost var started := ctl;
      ConfigurePll(variant, r);
      forall i: nat | i < 32
        ensures Bit(ctl, i) <==> i == 24 || Bit(started, i)
      {
        SetBit(started, PLLEN, i);
      }
      var seen := AwaitPll(fuel, r);
      if !seen {
        return Waiting;
      }
      seen := HighDrive(fuel, r);
      if !seen {
        return Waiting;
      }
      SelectPll(r);
      seen := AwaitSwitch(fuel, r);
      SwitchedBits(r.entry, old(apb1en), old(pmuCtl));
      outcome := if seen then Switched else Waiting;
    }

    // ----- SystemCoreClockUpdate -----

    /** The frequency by the source the hardware reports, shifted by the AHB exponent. */
    method SystemCoreClockUpdate()
      requires Clean()
      requires GetBits(device(now).cfg0, 2, 3) == SEL_PLLP ==> GetBits(pll, 0, 5) != 0
      modifies `systemCoreClock, `now, `run
      ensures var s, code := GetBits(device(old(now)).cfg0, 2, 3), GetBits(cfg0, 4, 7);
              var d := if 8 <= code < 16 then AHB_DIVIDERS[code - 8] else 1;
              && (s == 1 ==> systemCoreClock == hxtal / d)
              && (s == 0 || s == 3 ==> systemCoreClock == 16_000_000 / d)
              && (s == 2 ==>
                    var f := if GetBits(pll, 22, 22) == 1 then hxtal else 16_000_000;
                    var product := f / GetBits(pll, 0, 5) * GetBits(pll, 6, 14);
                    systemCoreClock == product % 0x1_0000_0000 / ((GetBits(pll, 16, 17) + 1) * 2) / d)
      ensures systemCoreClock
              == Shr(SystemClock(hxtal, GetBits(device(old(now)).cfg0, 2, 3), pll), AHB_EXP[AhbIndex(cfg0)])
    {
      hide And, Or, Not, BitMask, Bits, GetBits, Halved, AhbIndex;
      var v := LoadCfg0();
      ReadStatus(cfg0, v, device(old(now)).cfg0);
      var sws := GetBits(v, 2, 3);
      StatusBound(sws, v);
      if sws == SEL_IRC16M {
        systemCoreClock := IRC16M_VALUE;
      } else if sws == SEL_HXTAL {
        systemCoreClock := hxtal;
      } else if sws == SEL_PLLP {
        var pllpsc := GetBits(pll, 0, 5);
        var plln := GetBits(pll, 6, 14);
        var pllp := OutputDivider(pll);
        var ckSrc := if And(pll, BitMask(22)) == BitMask(22) then hxtal else IRC16M_VALUE;
        systemCoreClock := ToU32((ckSrc / pllpsc) * plln) / pllp;
      } else {
        systemCoreClock := IRC16M_VALUE;
      }
      v := LoadCfg0();
      ReadSoftware(cfg0, v, device(now - 1).cfg0);
      systemCoreClock := Shr(systemCoreClock, AHB_EXP[AhbIndex(v)]);
      UpdatedFrequency(hxtal, sws, pll, AhbIndex(cfg0));
      assert AhbIndex(cfg0) == GetBits(cfg0, 4, 7) by {
        IndexValue(cfg0);
      }
    }

    /** Bring-up and update together: when the hardware then reports PLLP in use, and the AHB
        prescaler was off at entry, SystemCoreClock is the declared constant exactly when
        HXTAL_VALUE matches the variant. */
    method BringUpAndUpdate(variant: Variant, fuel: nat) returns (outcome: Outcome)
      requires variant in VARIANTS
      requires NoOverflow(SourceFrequency(variant.pll.source, hxtal), variant.pll.m, variant.pll.n)
      requires Clean() && !Bit(ctl, PLLEN) && !SelectsPll(cfg0) && !Bit(pmuCtl, HDEN) && !Bit(pmuCtl, HDS)
      requires GetBits(cfg0, 4, 7) == 0
      modifies this
      ensures fuel > 0 && AlwaysReady(variant.pll.source) ==> outcome == Switched
      ensures outcome == Switched
              && (forall k: nat {:trigger device(k)} :: GetBits(device(k).cfg0, 2, 3) == SEL_PLLP) ==>
                (systemCoreClock == variant.declared
                 <==> SourceFrequency(variant.pll.source, hxtal) / variant.pll.m == 1_000_000)
    {
      hide And, Or, Not, BitMask, Bit, Bits, Field, GetBits, PllWord, Prescaled, Dividers, WithPllSelected,
           SystemClock, AhbIndex;
      VariantShape(variant);
      DeclaredIff(variant, hxtal);
      SelectedFields(cfg0);
      PrescalerOff(cfg0);
      outcome := BringUp(variant, fuel);
      if outcome == Switched {
        SystemCoreClockUpdate();
        Shifted(SystemClock(hxtal, SEL_PLLP, pll), 0);
      }
    }
  }

  // ----- what the accesses mean for the monitor -----

  /** The AHB prescaler index: GET_BITS(RCU_CFG0, 4, 7). */
  function AhbIndex(cfg0: u32): (i: nat)
    ensures i < 16
  {
    FourBits(cfg0);
    GetBits(cfg0, 4, 7)
  }

  lemma IndexValue(cfg0: u32)
    ensures AhbIndex(cfg0) == GetBits(cfg0, 4, 7)
  {
    hide GetBits;
  }

  lemma StatusBound(s: u32, cfg0: u32)
    requires s == GetBits(cfg0, 2, 3)
    ensures s < 4
  {
    hide GetBits, Pow2;
    Widths();
    GetBitsBound(cfg0, 2, 3);
  }

  /** The registers a completed bring-up leaves, bit by bit. */
  lemma SwitchedBits(entry: u32, apb1en: u32, pmuCtl: u32)
    ensures forall i: nat | i < 32 ::
              && (Bit(WithPllSelected(entry), i) <==> if i <= 1 then i == 1 else Bit(entry, i) || i in {10, 12, 15})
              && (Bit(Or(apb1en, BitMask(PMUEN)), i) <==> Bit(apb1en, i) || i == 28)
              && (Bit(Or(Or(Or(pmuCtl, Bits(14, 15)), BitMask(HDEN)), BitMask(HDS)), i)
                  <==> Bit(pmuCtl, i) || 14 <= i <= 17)
  {
    SmallBits();
    hide And, Or, Not, BitMask, Bits, Field, Bit;
    WordBits();
    FieldBits();
    forall i: nat
      ensures !Bit(0, i)
    {
      ZeroBit(i);
    }
  }

  lemma SmallBits()
    ensures !Bit(2, 0) && Bit(2, 1)
    ensures !Bit(4, 0) && !Bit(4, 1) && Bit(4, 2) && Bit(5, 0) && !Bit(5, 1) && Bit(5, 2)
  {
  }

  lemma FourBits(cfg0: u32)
    ensures GetBits(cfg0, 4, 7) < 16
  {
    Widths();
    GetBitsBound(cfg0, 4, 7);
  }

  lemma PrescalerOff(entry: u32)
    requires GetBits(entry, 4, 7) == 0
    ensures AhbIndex(WithPllSelected(entry)) == 0
  {
    SelectedFields(entry);
  }

  lemma ReadSoftware(stored: u32, v: u32, hardware: u32)
    requires And(stored, CFG0_STATUS) == 0 && v == Overlay(stored, hardware, CFG0_STATUS)
    ensures AhbIndex(v) == AhbIndex(stored)
  {
    Cfg0Bits();
    FieldOutside(stored, CFG0_STATUS, 2, 3, 4, 7);
    MaskedField(hardware, CFG0_STATUS);
    GetOrDisjoint(And(stored, Not(CFG0_STATUS)), And(hardware, CFG0_STATUS), 4, 7);
  }

  lemma ReadStatus(stored: u32, v: u32, hardware: u32)
    requires v == Overlay(stored, hardware, CFG0_STATUS)
    ensures GetBits(v, 2, 3) == GetBits(hardware, 2, 3)
  {
    Cfg0Bits();
    FieldBits();
    forall i: nat | i < 32
      ensures Bit(GetBits(v, 2, 3), i) <==> Bit(GetBits(hardware, 2, 3), i)
    {
      if i + 2 < 32 {
        OverlayBit(stored, hardware, CFG0_STATUS, i + 2);
      }
    }
    WordExtensionality(GetBits(v, 2, 3), GetBits(hardware, 2, 3));
  }

  lemma MaskedField(hardware: u32, mask: u32)
    requires mask == Bits(2, 3)
    ensures GetBits(And(hardware, mask), 4, 7) == 0
  {
    hide *;
    WordBits();
    FieldBits();
    forall i: nat | i < 32
      ensures Bit(GetBits(And(hardware, mask), 4, 7), i) <==> Bit(0, i)
    {
      ZeroBit(i);
    }
    WordExtensionality(GetBits(And(hardware, mask), 4, 7), 0);
  }

  lemma StatusFree()
    ensures And(Field(4, 7, 0), CFG0_STATUS) == 0 && And(Field(13, 15, 4), CFG0_STATUS) == 0
    ensures And(Field(10, 12, 5), CFG0_STATUS) == 0 && And(Field(0, 1, 2), CFG0_STATUS) == 0
  {
    Cfg0Bits();
    FieldApart(4, 7, 0);
    FieldApart(13, 15, 4);
    FieldApart(10, 12, 5);
    FieldApart(0, 1, 2);
  }

  lemma FieldApart(a: nat, b: nat, v: u32)
    requires a <= b <= 31 && Disjoint(a, b, 2, 3)
    ensures And(Field(a, b, v), Bits(2, 3)) == 0
  {
    assert b < 2 || 3 < a;
    hide *;
    WordBits();
    FieldBits();
    forall i: nat | i < 32
      ensures Bit(And(Field(a, b, v), Bits(2, 3)), i) <==> Bit(0, i)
    {
      ZeroBit(i);
    }
    WordExtensionality(And(Field(a, b, v), Bits(2, 3)), 0);
  }

  /** Or-ing in the prescalers one by one never selects the PLL. */
  lemma StillUnselected(entry: u32)
    requires !SelectsPll(entry)
    ensures !SelectsPll(Or(entry, Field(4, 7, 0)))
    ensures !SelectsPll(Or(Or(entry, Field(4, 7, 0)), Field(13, 15, 4)))
    ensures !SelectsPll(Dividers(entry))
  {
    var x, y, z := Field(4, 7, 0), Field(13, 15, 4), Field(10, 12, 5);
    GetDisjointField(0, 1, 4, 7, 0);
    GetDisjointField(0, 1, 13, 15, 4);
    GetDisjointField(0, 1, 10, 12, 5);
    GetOrDisjoint(entry, x, 0, 1);
    GetOrDisjoint(Or(entry, x), y, 0, 1);
    GetOrDisjoint(Or(Or(entry, x), y), z, 0, 1);
  }

  /** The regulator bits are not the high-drive bits. */
  lemma RegulatorBits(w: u32)
    ensures Bit(Or(w, Bits(14, 15)), HDEN) <==> Bit(w, HDEN)
    ensures Bit(Or(w, Bits(14, 15)), HDS) <==> Bit(w, HDS)
  {
    assert HDEN == 16 && HDS == 17;
    hide *;
    WordBits();
    FieldBits();
  }

  /** The fields outside the status bits of a written word are those of the stored one. */
  lemma StoredFields(w: u32, stored: u32)
    requires And(w, Not(CFG0_STATUS)) == stored
    ensures GetBits(w, 0, 1) == GetBits(stored, 0, 1) && GetBits(w, 4, 7) == GetBits(stored, 4, 7)
    ensures GetBits(w, 10, 12) == GetBits(stored, 10, 12) && GetBits(w, 13, 15) == GetBits(stored, 13, 15)
  {
    Cfg0Bits();
    FieldOutside(w, CFG0_STATUS, 2, 3, 0, 1);
    FieldOutside(w, CFG0_STATUS, 2, 3, 4, 7);
    FieldOutside(w, CFG0_STATUS, 2, 3, 10, 12);
    FieldOutside(w, CFG0_STATUS, 2, 3, 13, 15);
  }

  lemma UnselectedAccess(r: Rules, before: seq<Event>, after: seq<Event>, stored: u32)
    requires Board.Cfg0Access(before, after, stored) && !SelectsPll(stored)
    requires Watch(r, before).Stage? && Watch(r, before).k < 10
    ensures Watch(r, after) == Watch(r, before)
  {
    var v, w := after[|before|], after[|before| + 1];
    StoredFields(w.w, stored);
    WatchSnoc(r, before, v);
    WatchSnoc(r, before + [v], w);
    assert after == before + [v] + [w];
  }

  lemma SelectingAccess(r: Rules, before: seq<Event>, after: seq<Event>, stored: u32)
    requires Board.Cfg0Access(before, after, stored) && SelectsPll(stored) && Prescaled(r.entry, stored)
    requires Watch(r, before) == Stage(9)
    ensures Watch(r, after) == Stage(10)
  {
    hide And, Not, GetBits, Watch, Bit, PllWord;
    var v, w := after[|before|], after[|before| + 1];
    StoredFields(w.w, stored);
    WatchSnoc(r, before, v);
    WatchSnoc(r, before + [v], w);
    assert after == before + [v] + [w];
  }
}
