/**
  The system timer: SysTick_Config, and the down-counter it starts (section B3.3 of the
  ARMv7-M Architecture Reference Manual).
*/
module SysTick {
  import opened Words
  import opened Priority
  import opened NvicModel
  import NvicDriver

  const RELOAD_MSK := 0xFF_FFFF
  const SYSTICK_IRQN := -1

  class Timer {
    const nvic: NvicDriver.Registers
    var load: u32
    var val: u32
    var ctrl: u32

    constructor (controller: NvicDriver.Registers, load0: u32, val0: u32, ctrl0: u32)
      ensures nvic == controller && load == load0 && val == val0 && ctrl == ctrl0
    {
      nvic, load, val, ctrl := controller, load0, val0, ctrl0;
    }

    /** Succeeds exactly for 1 <= ticks <= 2^24: the subtraction wraps around for 0.  A failing
        call changes nothing; a successful one gives the timer, byte 11 of SHP, the numerically
        greatest priority of the chip and starts it, with its interrupt, from a cleared counter. */
    method Config(ticks: u32) returns (r: u32)
      requires nvic.Valid()
      modifies this, nvic.ip, nvic.shp
      ensures nvic.Valid()
      ensures r == if 1 <= ticks <= 0x100_0000 then 0 else 1
      ensures r == 1 ==> load == old(load) && val == old(val) && ctrl == old(ctrl)
                         && nvic.Model() == old(nvic.Model())
      ensures r == 0 ==> load == ticks - 1 && val == 0 && ctrl == 7
      ensures r == 0 ==>
                && Greatest(nvic.prioBits, nvic.shp[11])
                && nvic.shp[..] == old(nvic.shp[..])[11 := nvic.shp[11]] && nvic.ip[..] == old(nvic.ip[..])
                && nvic.Model()
                   == old(nvic.Model()).(priority := old(nvic.Model()).priority[-1 := nvic.shp[11]])
    {
      if ToU32(ticks - 1) > RELOAD_MSK {
        return 1;
      }
      load := ToU32(ticks - 1);
      nvic.SetPriority(SYSTICK_IRQN, LowMask(nvic.prioBits));
      GreatestPriority(nvic.prioBits);
      val := 0;
      ControlWord();
      ctrl := Or(Or(Shl(1, 2), Shl(1, 1)), Shl(1, 0));
      return 0;
    }
  }

  /** A priority the chip can store, and none it can store is greater. */
  ghost predicate Greatest(n: nat, byte: u8)
    requires Implementable(n)
  {
    && (exists value: u32 :: StoredByte(n, value) == byte)
    && (forall value: u32 {:trigger StoredByte(n, value)} :: StoredByte(n, value) <= byte)
  }

  lemma GreatestPriority(n: nat)
    requires Implementable(n)
    ensures Greatest(n, StoredByte(n, LowMask(n)))
  {
    forall value: u32
      ensures StoredByte(n, value) <= StoredByte(n, LowMask(n))
    {
      LowMaskValue(n);
      StoredByteValue(n, value);
      StoredByteValue(n, LowMask(n));
      SmallLowPart(LowMask(n), n);
      LowPartBound(value, n);
      DoublingKeepsOrder(LowMask(n), LowPart(value, n), 8 - n);
    }
  }

  /** Clock source, interrupt and enable bits. */
  lemma ControlWord()
    ensures Or(Or(Shl(1, 2), Shl(1, 1)), Shl(1, 0)) == 7
  {
    hide Or, Shl;
    PowersOfTwo();
    ShlExact(1, 2);
    ShlExact(1, 1);
    ShlExact(1, 0);
    Computed(4, 2);
    Computed(6, 1);
  }

  // ----- the counter -----

  /** The counter after some cycles, and how often it expired: it expires when it goes from 1 to
      0, and is reloaded in the cycle after reaching 0. */
  datatype Count = Count(val: nat, expiries: nat)

  function Cycle(load: nat, c: Count): Count {
    if c.val == 0 then Count(load, c.expiries)
    else Count(c.val - 1, c.expiries + if c.val == 1 then 1 else 0)
  }

  function Cycles(load: nat, c: Count, cycles: nat): Count {
    if cycles == 0 then c else Cycle(load, Cycles(load, c, cycles - 1))
  }

  lemma {:induction false} CyclesAdd(load: nat, c: Count, j: nat, k: nat)
    ensures Cycles(load, c, j + k) == Cycles(load, Cycles(load, c, j), k)
    decreases k
  {
    if k > 0 {
      CyclesAdd(load, c, j, k - 1);
    }
  }

  lemma {:induction false} CountingDown(load: nat, c: Count, cycles: nat)
    requires cycles <= c.val
    ensures Cycles(load, c, cycles)
            == Count(c.val - cycles, c.expiries + if cycles == c.val && cycles > 0 then 1 else 0)
  {
    if cycles > 0 {
      CountingDown(load, c, cycles - 1);
    }
  }

  /** From any point of the count, `load + 1` cycles lead back there through one expiry. */
  lemma OnePeriod(load: nat, c: Count)
    requires 1 <= load && c.val <= load
    ensures Cycles(load, c, load + 1) == Count(c.val, c.expiries + 1)
  {
    var zero := Cycles(load, c, c.val);
    CountingDown(load, c, c.val);
    var reloaded := Cycles(load, zero, 1);
    assert reloaded == Cycle(load, Cycles(load, zero, 0));
    CountingDown(load, reloaded, load - c.val);
    CyclesAdd(load, c, c.val, 1);
    CyclesAdd(load, c, c.val + 1, load - c.val);
  }

  lemma {:induction false} Periods(load: nat, c: Count, k: nat)
    requires 1 <= load && c.val <= load
    ensures k * (load + 1) >= 0
    ensures Cycles(load, c, k * (load + 1)) == Count(c.val, c.expiries + k)
  {
    if k > 0 {
      Periods(load, c, k - 1);
      assert k * (load + 1) == (k - 1) * (load + 1) + (load + 1);
      CyclesAdd(load, c, (k - 1) * (load + 1), load + 1);
      OnePeriod(load, Count(c.val, c.expiries + k - 1));
    }
  }

  lemma {:induction false} NeverExpires(c: Count, cycles: nat)
    requires c.val == 0
    ensures Cycles(0, c, cycles) == c
  {
    if cycles > 0 {
      NeverExpires(c, cycles - 1);
    }
  }

  /** After a successful SysTick_Config(ticks), every window of k * ticks cycles, wherever it
      starts, holds exactly k expiries if and only if ticks is at least 2: SysTick_Config accepts
      ticks == 1, but a reload value of 0 stops the counter. */
  lemma PeriodicIff(ticks: u32, start: nat, k: nat)
    requires 1 <= ticks <= 0x100_0000 && k >= 1
    ensures k * ticks >= 0
    ensures var before := Cycles(ticks - 1, Count(0, 0), start);
            Cycles(ticks - 1, before, k * ticks).expiries == before.expiries + k <==> ticks >= 2
  {
    var before := Cycles(ticks - 1, Count(0, 0), start);
    if ticks >= 2 {
      WithinLoad(ticks - 1, start);
      Periods(ticks - 1, before, k);
    } else {
      NeverExpires(Count(0, 0), start);
      NeverExpires(before, k * ticks);
    }
  }

  lemma {:induction false} WithinLoad(load: nat, start: nat)
    ensures Cycles(load, Count(0, 0), start).val <= load
  {
    if start > 0 {
      WithinLoad(load, start - 1);
    }
  }
}
