/**
  The interrupt-controller driver over its registers.  The set/clear register pairs are two
  views of one bit per line: writing ones to ISER or ISPR sets bits, writing ones to ICER or
  ICPR clears them, zeros change nothing.  Every method is proved to make the step of
  `NvicModel` that its documentation promises.
*/
module NvicDriver {
  import opened Words
  import opened BitFields
  import opened Priority
  import Aircr
  import opened NvicModel

  const WORDS := 8
  const HANDLERS := 12

  /** The lines whose bit is set in a bank of eight words; the bits above the last line are reserved. */
  ghost function LinesOf(words: seq<u32>): set<int>
    requires |words| == WORDS
  {
    set irq: nat | irq < LINES && Bit(words[irq / 32], irq % 32)
  }

  lemma NoLines(words: seq<u32>)
    requires |words| == WORDS && forall w <- words :: w == 0
    ensures LinesOf(words) == {}
  {
    forall irq | irq in LinesOf(words)
      ensures false
    {
      assert words[irq / 32] in words;
      ZeroBit(irq % 32);
    }
  }

  /** The register index and the bit of a line. */
  function WordIndex(irq: int): u32 {
    Shr(ToU32(irq), 5)
  }

  function LineBit(irq: int): u32 {
    Shl(1, And(ToU32(irq), 0x1F))
  }

  /** The index of a system exception in SHP. */
  function HandlerIndex(irq: int): int {
    And(ToU32(irq), 0xF) - 4
  }

  lemma LinePlace(irq: int)
    requires ExternalLine(irq)
    ensures WordIndex(irq) == irq / 32 < WORDS
    ensures forall i: nat | i < 32 :: Bit(LineBit(irq), i) <==> i == irq % 32
  {
    PowersOfTwo();
    HalvedValue(irq, 5);
    Shifted(irq, 5);
    LowBits(irq, 5);
    FieldBits();
    assert LineBit(irq) == BitMask(irq % 32);
  }

  lemma HandlerPlace(irq: int)
    requires FIRST_SYSTEM <= irq < 0
    ensures HandlerIndex(irq) == irq - FIRST_SYSTEM < HANDLERS
  {
    hide LowPart, Pow2;
    PowersOfTwo();
    LowBits(ToU32(irq), 4);
  }

  /** Setting the bits of a mask that covers one line adds the line. */
  lemma SetLine(words: seq<u32>, irq: int)
    requires |words| == WORDS && ExternalLine(irq)
    ensures var k := irq / 32;
            LinesOf(words[k := Or(words[k], LineBit(irq))]) == LinesOf(words) + {irq}
  {
    WordBits();
    LinePlace(irq);
    var k := irq / 32;
    var words' := words[k := Or(words[k], LineBit(irq))];
    forall line: int
      ensures line in LinesOf(words') <==> line in LinesOf(words) + {irq}
    {
      if ExternalLine(line) && line / 32 == k && line % 32 == irq % 32 {
        assert line == irq;
      }
    }
  }

  /** Clearing them removes it. */
  lemma ClearLine(words: seq<u32>, irq: int)
    requires |words| == WORDS && ExternalLine(irq)
    ensures var k := irq / 32;
            LinesOf(words[k := And(words[k], Not(LineBit(irq)))]) == LinesOf(words) - {irq}
  {
    WordBits();
    LinePlace(irq);
    var k := irq / 32;
    var words' := words[k := And(words[k], Not(LineBit(irq)))];
    forall line: int
      ensures line in LinesOf(words') <==> line in LinesOf(words) - {irq}
    {
      if ExternalLine(line) && line / 32 == k && line % 32 == irq % 32 {
        assert line == irq;
      }
    }
  }

  /** Masking with the bit of a line tests it. */
  lemma TestLine(words: seq<u32>, irq: int)
    requires |words| == WORDS && ExternalLine(irq)
    ensures And(words[irq / 32], LineBit(irq)) != 0 <==> irq in LinesOf(words)
  {
    WordBits();
    LinePlace(irq);
    var masked := And(words[irq / 32], LineBit(irq));
    if masked == 0 {
      ZeroBit(irq % 32);
      assert !Bit(masked, irq % 32);
    } else if irq !in LinesOf(words) {
      forall i: nat | i < 32
        ensures Bit(masked, i) <==> Bit(0, i)
      {
        ZeroBit(i);
      }
      WordExtensionality(masked, 0);
    }
  }

  /** In the register words: the bit of the line is now `on`, every other bit of the bank is as it was. */
  ghost predicate LineWritten(before: seq<u32>, after: seq<u32>, irq: nat, on: bool) {
    && |before| == |after| == WORDS
    && forall w: nat, i: nat {:trigger Bit(after[w], i)} | w < WORDS && i < 32 ::
         Bit(after[w], i) <==> if 32 * w + i == irq then on else Bit(before[w], i)
  }

  lemma LineSet(words: seq<u32>, irq: int)
    requires |words| == WORDS && ExternalLine(irq)
    ensures var k := irq / 32;
            LineWritten(words, words[k := Or(words[k], LineBit(irq))], irq, true)
  {
    hide And, Or, Bit, LineBit;
    WordBits();
    LinePlace(irq);
  }

  lemma LineCleared(words: seq<u32>, irq: int)
    requires |words| == WORDS && ExternalLine(irq)
    ensures var k := irq / 32;
            LineWritten(words, words[k := And(words[k], Not(LineBit(irq)))], irq, false)
  {
    hide And, Not, Bit, LineBit;
    WordBits();
    LinePlace(irq);
  }

  class Registers {
    /** __NVIC_PRIO_BITS */
    const prioBits: nat
    /** The bits behind ISER and ICER, behind ISPR and ICPR, and in IABR. */
    const enabledWords: array<u32>
    const pendingWords: array<u32>
    const activeWords: array<u32>
    /** The priority bytes of the external lines and of the system exceptions. */
    const ip: array<u8>
    const shp: array<u8>
    var aircr: u32
    /** Every word written to AIRCR so far. */
    ghost var aircrWrites: seq<u32>

    ghost predicate Valid()
      reads this
    {
      && Implementable(prioBits)
      && enabledWords.Length == pendingWords.Length == activeWords.Length == WORDS
      && ip.Length == LINES && shp.Length == HANDLERS
      && enabledWords != pendingWords && enabledWords != activeWords && pendingWords != activeWords
      && ip != shp
    }

    /** The controller these registers represent. */
    ghost function Model(): Nvic
      requires Valid()
      reads this, enabledWords, pendingWords, activeWords, ip, shp
    {
      Nvic(LinesOf(enabledWords[..]), LinesOf(pendingWords[..]), LinesOf(activeWords[..]),
           map irq: int | FIRST_SYSTEM <= irq < LINES :: if irq < 0 then shp[irq - FIRST_SYSTEM] else ip[irq])
    }

    /** The registers after reset. */
    constructor (bits: nat, resetAircr: u32)
      requires Implementable(bits)
      ensures Valid() && prioBits == bits && aircr == resetAircr && aircrWrites == []
      ensures fresh(enabledWords) && fresh(pendingWords) && fresh(activeWords) && fresh(ip) && fresh(shp)
      ensures Model() == ResetState()
      ensures forall k | 0 <= k < WORDS :: enabledWords[k] == pendingWords[k] == activeWords[k] == 0
      ensures (forall k | 0 <= k < LINES :: ip[k] == 0) && (forall k | 0 <= k < HANDLERS :: shp[k] == 0)
    {
      prioBits := bits;
      enabledWords := new u32[WORDS](_ => 0);
      pendingWords := new u32[WORDS](_ => 0);
      activeWords := new u32[WORDS](_ => 0);
      ip := new u8[LINES](_ => 0);
      shp := new u8[HANDLERS](_ => 0);
      aircr := resetAircr;
      aircrWrites := [];
      new;
      NoLines(enabledWords[..]);
      NoLines(pendingWords[..]);
      NoLines(activeWords[..]);
    }

    // ----- the registers -----

    method WriteOnesToSet(words: array<u32>, index: nat, value: u32)
      requires index < words.Length
      modifies words
      ensures words[..] == old(words[..][index := Or(words[index], value)])
    {
      words[index] := Or(words[index], value);
    }

    method WriteOnesToClear(words: array<u32>, index: nat, value: u32)
      requires index < words.Length
      modifies words
      ensures words[..] == old(words[..][index := And(words[index], Not(value))])
    {
      words[index] := And(words[index], Not(value));
    }

    // ----- enable, disable, pend -----

    method EnableIRQ(irq: int)
      requires Valid() && ExternalLine(irq)
      modifies enabledWords
      ensures Valid() && Model() == Step(prioBits, old(Model()), Enable(irq))
      ensures LineWritten(old(enabledWords[..]), enabledWords[..], irq, true)
    {
      LinePlace(irq);
      LineSet(enabledWords[..], irq);
      SetLine(enabledWords[..], irq);
      WriteOnesToSet(enabledWords, WordIndex(irq), LineBit(irq));
    }

    method DisableIRQ(irq: int)
      requires Valid() && ExternalLine(irq)
      modifies enabledWords
      ensures Valid() && Model() == Step(prioBits, old(Model()), Disable(irq))
      ensures LineWritten(old(enabledWords[..]), enabledWords[..], irq, false)
    {
      LinePlace(irq);
      LineCleared(enabledWords[..], irq);
      ClearLine(enabledWords[..], irq);
      WriteOnesToClear(enabledWords, WordIndex(irq), LineBit(irq));
    }

    method SetPendingIRQ(irq: int)
      requires Valid() && ExternalLine(irq)
      modifies pendingWords
      ensures Valid() && Model() == Step(prioBits, old(Model()), SetPending(irq))
      ensures LineWritten(old(pendingWords[..]), pendingWords[..], irq, true)
    {
      LinePlace(irq);
      LineSet(pendingWords[..], irq);
      SetLine(pendingWords[..], irq);
      WriteOnesToSet(pendingWords, WordIndex(irq), LineBit(irq));
    }

    method ClearPendingIRQ(irq: int)
      requires Valid() && ExternalLine(irq)
      modifies pendingWords
      ensures Valid() && Model() == Step(prioBits, old(Model()), ClearPending(irq))
      ensures LineWritten(old(pendingWords[..]), pendingWords[..], irq, false)
    {
      LinePlace(irq);
      LineCleared(pendingWords[..], irq);
      ClearLine(pendingWords[..], irq);
      WriteOnesToClear(pendingWords, WordIndex(irq), LineBit(irq));
    }

    method GetPendingIRQ(irq: int) returns (r: u32)
      requires Valid() && ExternalLine(irq)
      ensures r == if irq in Model().pending then 1 else 0
      ensures r == if Bit(pendingWords[irq / 32], irq % 32) then 1 else 0
    {
      LinePlace(irq);
      TestLine(pendingWords[..], irq);
      r := if And(pendingWords[WordIndex(irq)], LineBit(irq)) != 0 then 1 else 0;
    }

    method GetActive(irq: int) returns (r: u32)
      requires Valid() && ExternalLine(irq)
      ensures r == if irq in Model().active then 1 else 0
      ensures r == if Bit(activeWords[irq / 32], irq % 32) then 1 else 0
    {
      LinePlace(irq);
      TestLine(activeWords[..], irq);
      r := if And(activeWords[WordIndex(irq)], LineBit(irq)) != 0 then 1 else 0;
    }

    // ----- priorities -----

    method SetPriority(irq: int, priority: u32)
      requires Valid() && Configurable(irq)
      modifies ip, shp
      ensures Valid() && Model() == Step(prioBits, old(Model()), NvicModel.SetPriority(irq, priority))
      ensures irq < 0 ==>
                shp[..] == old(shp[..])[irq + 12 := StoredByte(prioBits, priority)] && ip[..] == old(ip[..])
      ensures irq >= 0 ==>
                ip[..] == old(ip[..])[irq := StoredByte(prioBits, priority)] && shp[..] == old(shp[..])
    {
      if irq < 0 {
        HandlerPlace(irq);
        shp[HandlerIndex(irq)] := And(Shl(priority, 8 - prioBits), 0xff);
      } else {
        ip[ToU32(irq)] := And(Shl(priority, 8 - prioBits), 0xff);
      }
    }

    method GetPriority(irq: int) returns (r: u32)
      requires Valid() && Configurable(irq)
      ensures r == ReadByte(prioBits, Model().priority[irq])
      ensures r == ReadByte(prioBits, if irq < 0 then shp[irq + 12] else ip[irq])
    {
      if irq < 0 {
        HandlerPlace(irq);
        r := Shr(shp[HandlerIndex(irq)], 8 - prioBits);
      } else {
        r := Shr(ip[ToU32(irq)], 8 - prioBits);
      }
    }

    // ----- grouping and reset -----

    method WriteAircr(value: u32)
      requires Valid()
      modifies this
      ensures Valid() && Model() == old(Model())
      ensures aircr == Aircr.AfterWrite(old(aircr), value) && aircrWrites == old(aircrWrites) + [value]
    {
      aircr := Aircr.AfterWrite(aircr, value);
      aircrWrites := aircrWrites + [value];
    }

    method SetPriorityGrouping(group: u32)
      requires Valid()
      modifies this
      ensures Valid() && Model() == old(Model())
      ensures aircr == Aircr.AfterWrite(old(aircr), Aircr.GroupingWrite(old(aircr), group))
      ensures aircrWrites == old(aircrWrites) + [Aircr.GroupingWrite(old(aircr), group)]
      ensures GetBits(aircrWrites[|old(aircrWrites)|], 16, 31) == 0x05FA
      ensures GetBits(aircr, 8, 10) == group % 8 && Aircr.SameElsewhere(aircr, old(aircr))
    {
      Aircr.SetGroupingOutcome(aircr, group);
      var groupTmp := And(group, 7);
      var regValue := aircr;
      regValue := And(regValue, Not(Or(Shl(0xFFFF, 16), Shl(7, 8))));
      regValue := Or(Or(regValue, Shl(0x5FA, 16)), Shl(groupTmp, 8));
      assert regValue == Aircr.GroupingWrite(aircr, group);
      WriteAircr(regValue);
    }

    method GetPriorityGrouping() returns (r: u32)
      ensures r == Aircr.PriorityGrouping(aircr) == GetBits(aircr, 8, 10)
    {
      Aircr.GroupingIsField(aircr);
      r := Shr(And(aircr, Shl(7, 8)), 8);
    }

    /** The register accesses of NVIC_SystemReset, which then waits for the reset forever. */
    method RequestSystemReset()
      requires Valid()
      modifies this
      ensures Valid() && Model() == old(Model())
      ensures aircrWrites == old(aircrWrites) + [Aircr.ResetWrite(old(aircr))]
      ensures var w := aircrWrites[|old(aircrWrites)|];
              && GetBits(w, 16, 31) == 0x05FA && GetBits(w, 8, 10) == GetBits(old(aircr), 8, 10)
              && GetBits(w, 0, 7) == 4 && GetBits(w, 11, 15) == 0
    {
      Aircr.ResetOutcome(aircr);
      Aircr.GroupingIsField(aircr);
      Aircr.GroupingIsField(Aircr.ResetWrite(aircr));
      WriteAircr(Or(Or(Shl(0x5FA, 16), And(aircr, Shl(7, 8))), Shl(1, 2)));
    }

    // ----- the vendor driver (gd32f4xx_misc.c) -----

    method VendorPriorityGroupSet(prigroup: u32)
      requires Valid() && Aircr.VendorGrouping(prigroup)
      modifies this
      ensures Valid() && Model() == old(Model())
      ensures aircrWrites == old(aircrWrites) + [Aircr.VendorGroupingWrite(prigroup)]
      ensures GetBits(aircrWrites[|old(aircrWrites)|], 16, 31) == 0x05FA
      ensures GetBits(aircr, 8, 10) == prigroup / 0x100
      ensures GetBits(aircr, 0, 7) == 0 && GetBits(aircr, 11, 15) == 0
    {
      Aircr.VendorGroupingAgreesIff(aircr, prigroup);
      WriteAircr(Or(0x05FA_0000, prigroup));
    }

    /** nvic_irq_enable: the two calls NVIC_SetPriority and NVIC_EnableIRQ in one, on this chip
        exactly when the grouping is 3..7 or the preemption level is a multiple of 16. */
    method VendorIrqEnable(irq: u8, preempt: u8, sub: u8)
      requires Valid() && ExternalLine(irq)
      modifies ip, enabledWords
      ensures Valid()
      ensures ip[..] == old(ip[..])[irq as int := IrqEnableByte(aircr, preempt, sub)]
      ensures LineWritten(old(enabledWords[..]), enabledWords[..], irq, true)
      ensures var byte := IrqEnableByte(aircr, preempt, sub);
              Model() == old(Model()).(enabled := old(Model()).enabled + {irq as int},
                                       priority := old(Model()).priority[irq as int := byte])
      ensures var g := GetBits(aircr, 8, 10);
              var encoded := NvicModel.SetPriority(irq, EncodePriority(4, g, preempt, sub));
              prioBits == 4 ==>
                (Model() == Run(4, old(Model()), [encoded, Enable(irq)]) <==> g >= 3 || preempt % 16 == 0)
    {
      hide Doubled, LowPart, Bit, GetBits, EncodePriority, StoredByte, IrqEnableByte, LineBit, WordIndex, Run;
      ip[irq] := IrqEnableByte(aircr, preempt, sub);
      LinePlace(irq);
      LineSet(enabledWords[..], irq);
      SetLine(enabledWords[..], irq);
      WriteOnesToSet(enabledWords, WordIndex(irq), LineBit(irq));
      IrqEnableAgreesIff(aircr, preempt, sub);
      ghost var encoded := NvicModel.SetPriority(irq, EncodePriority(4, GetBits(aircr, 8, 10), preempt, sub));
      assert Run(4, old(Model()), [encoded, Enable(irq)])
          == Step(4, Step(4, old(Model()), encoded), Enable(irq)) by {
        TwoSteps(4, old(Model()), encoded, Enable(irq));
      }
      assert Model().priority[irq as int] == IrqEnableByte(aircr, preempt, sub);
    }

    // ----- the hardware -----

    method RaiseLine(irq: int)
      requires Valid() && ExternalLine(irq)
      modifies pendingWords
      ensures Valid() && Model() == Step(prioBits, old(Model()), Raise(irq))
    {
      SetPendingIRQ(irq);
    }

    method EnterHandler(irq: int)
      requires Valid() && ExternalLine(irq)
      modifies pendingWords, activeWords
      ensures Valid() && Model() == Step(prioBits, old(Model()), Enter(irq))
    {
      LinePlace(irq);
      ClearLine(pendingWords[..], irq);
      SetLine(activeWords[..], irq);
      WriteOnesToClear(pendingWords, WordIndex(irq), LineBit(irq));
      WriteOnesToSet(activeWords, WordIndex(irq), LineBit(irq));
    }

    method LeaveHandler(irq: int)
      requires Valid() && ExternalLine(irq)
      modifies activeWords
      ensures Valid() && Model() == Step(prioBits, old(Model()), Leave(irq))
    {
      LinePlace(irq);
      ClearLine(activeWords[..], irq);
      WriteOnesToClear(activeWords, WordIndex(irq), LineBit(irq));
    }

    // ----- arbitrary sequences of calls -----

    method Perform(e: Event)
      requires Valid() && Callable(e)
      modifies enabledWords, pendingWords, activeWords, ip, shp
      ensures Valid() && Model() == Step(prioBits, old(Model()), e)
    {
      match e
      case Enable(irq) => EnableIRQ(irq);
      case Disable(irq) => DisableIRQ(irq);
      case SetPending(irq) => SetPendingIRQ(irq);
      case ClearPending(irq) => ClearPendingIRQ(irq);
      case SetPriority(irq, value) => SetPriority(irq, value);
      case Raise(irq) => RaiseLine(irq);
      case Enter(irq) => EnterHandler(irq);
      case Leave(irq) => LeaveHandler(irq);
    }

    /** Refinement: after any sequence of driver calls and hardware actions the registers
        represent the controller that the model reaches. */
    method PerformAll(events: seq<Event>)
      requires Valid() && forall e <- events :: Callable(e)
      modifies enabledWords, pendingWords, activeWords, ip, shp
      ensures Valid() && Model() == Run(prioBits, old(Model()), events)
    {
      for k := 0 to |events|
        invariant Valid() && Model() == Run(prioBits, old(Model()), events[..k])
      {
        Perform(events[k]);
        assert events[..k + 1] == events[..k] + [events[k]];
        RunAppend(prioBits, old(Model()), events[..k], events[k]);
      }
      assert events[..|events|] == events;
    }
  }

  lemma TwoSteps(n: nat, s: Nvic, d: Event, e: Event)
    requires Implementable(n)
    ensures Run(n, s, [d, e]) == Step(n, Step(n, s, d), e)
  {
    assert Run(n, s, [] + [d]) == Step(n, s, d) by {
      RunAppend(n, s, [], d);
    }
    assert [d, e] == [d] + [e];
    RunAppend(n, s, [d], e);
  }
}
