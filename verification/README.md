# Interrupts, clocks and register codecs of the GD32F4xx firmware

This project models the executable core of the firmware below its applications: the
interrupt-controller driver of the Cortex-M4 header, the clock bring-up and clock update of the
system file, and the codecs by which the peripheral drivers pack values into 32-bit registers.

* **Words and fields** (`Words`, `BitFields`, `FieldUnions`). A register is a bounded integer. The C
  operators on `uint32_t` are defined by the bits of their result and proved to be what halving and
  doubling compute, for all arguments and all positions. `BIT`, `BITS`, `GET_BITS`, the field writers
  and the masked update are built on them; every codec below is proved through the laws of these
  modules, not by cases.
* **Interrupt priorities** (`Priority`, `Aircr`). The priority codec for every number of implemented
  bits from 1 to 8 and every grouping, the byte stored in the priority registers, and the comparison
  the processor makes of these bytes (section B1.5.4 of the ARMv7-M Architecture Reference Manual);
  the keyed writes to AIRCR (section B3.2.6).
* **Interrupt controller** (`NvicModel`, `NvicDriver`). `NvicModel` is the abstract controller:
  enabled, pending and active sets and a priority map, with a step for each call and each hardware
  action. `NvicDriver.Registers` is a class over the register arrays, with write-one-to-set and
  write-one-to-clear words and two priority arrays; each of its methods makes the abstract step.
* **Nesting** (`Nesting`). The processor on top of the controller: lines are raised, exceptions are
  taken under the preemption rule, handlers return, and the program calls the driver in between.
* **System timer and debug mailbox** (`SysTick`, `ItmMailbox`). `SysTick_Config` with the counter it
  starts; `ITM_ReceiveChar` and a debugger as two processes interleaved access by access.
* **Clock tree** (`ClockTree`, `ClockBringUp`, `ClockBoard`). The PLL word and the 32-bit arithmetic
  that reads it back; the order of register accesses a safe bring-up must keep, as a monitor over the
  run; and a class `Board` whose status flags are an arbitrary history, with the nine PLL procedures
  as one method over their constants (`VARIANTS`), loops and timeouts as in the source.
* **Codecs of the peripherals** (`MacAddresses`, `CanMailbox`, `DmaFlags`, `FlagDescriptors`). The four
  Ethernet address slots with their filters, CAN mailboxes against receive FIFO entries, the DMA
  interrupt flags of eight channels, and the packed register-and-bit flag values.

`LowPart(x, k)` is `x mod 2^k`, `Halved(x, k)` the quotient and `Doubled(x, k)` the product by `2^k`
(`Words.HalvedValue`, `Words.DoubledValue`). `dafny verify dfyconfig.toml` checks everything.

## Where the code and its documentation disagree

The model follows the code. Each of these is stated by a member of the table.

* `nvic_irq_enable` knows five groupings and drops the preemption level under the other three
  (`Priority.IrqEnableAgreesIff`).
* `nvic_priority_group_set` writes zeros to the other fields of AIRCR
  (`Aircr.VendorGroupingAgreesIff`). The comment of `NVIC_SetPriorityGrouping` promises a smallest
  possible group in case of conflict; the code writes the group it is given.
* `SysTick_Config` accepts one tick, but a reload value of 0 never expires (`SysTick.PeriodicIff`).
* A debugger that sends the value marking the mailbox empty loses it (`ItmMailbox.Delivery`).
* The prescalers are or-ed into RCU_CFG0 on top of what it held, so they are the intended ones only
  for some values at entry (`ClockBringUp.PrescalersIntendedIff`). Of the 168 MHz procedure for the
  25 MHz crystal a comment says the APB clocks equal AHB; the code divides them by 2 and 4.
* With the crystal value of the header the three 8 MHz procedures do not run at the frequency they
  declare (`ClockTree.DeclaredForDefaultCrystal`). A comment of `SystemCoreClockUpdate` names a half
  of an 8 MHz oscillator as PLL source; the code uses the 16 MHz one.
* `enet_mac_address_set` switches the address filter of its slot off (`MacAddresses.SetKeepsFilterIff`).
* The CAN message structure documents lengths 1 to 7; the code carries lengths 0 to 15
  (`CanMailbox.RoundTripIff`).
* `dma_flag_clear` reads the clear register before writing it: it clears what it was asked to and no
  more only if the register shows no other pending flag (`DmaFlags.ClearIsExactIff`).
* A flag value packs six bits of position but gives back five (`FlagDescriptors.UnpackedIff`).

## Model

| member | source | states |
|---|---|---|
| Words.Computed | app/Project/inc/gd32f4xx.h:272-273 | bitwise and and or, defined by the bits of their result, are what the recursion over halves computes |
| Words.Shifted | app/Project/inc/gd32f4xx.h:271-273 | the shifts, defined by moving bits, are the quotient and the product by 2^k reduced to 32 bits |
| BitFields.FieldBits | app/Project/inc/gd32f4xx.h:271-273 | which bits are set in BIT(x), BITS(a,b), a field writer, GET_BITS and a masked update, for every position |
| BitFields.GetBitsValue | app/Project/inc/gd32f4xx.h:273 | GET_BITS(r,a,b) is the quotient of r by 2^a, reduced modulo 2^(b-a+1) |
| BitFields.GetField | app/Project/inc/gd32f4xx.h:272-273 | GET_BITS(BITS(a,b) & (v << a), a, b) is v mod 2^(b-a+1) |
| BitFields.GetDisjointField | app/Project/inc/gd32f4xx.h:272-273 | a reader finds 0 in a word built by the writer of a disjoint field |
| BitFields.FieldFits | app/Project/inc/gd32f4xx.h:272 | a value of the field's width is stored without loss, as its product with 2^a |
| BitFields.PutGet | app/Project/inc/gd32f4xx.h:271-273 | the masked update gives back the value put, reduced to the field's width |
| BitFields.GetPut | app/Project/inc/gd32f4xx.h:271-273 | putting back the value read changes nothing |
| BitFields.PutPut | app/Project/inc/gd32f4xx.h:271-273 | the last of two updates of a field wins |
| BitFields.PutCommutes | app/Project/inc/gd32f4xx.h:271-273 | updates of disjoint fields commute |
| BitFields.PutFrame | app/Project/inc/gd32f4xx.h:271-273 | an update leaves every disjoint field as it was |
| FieldUnions.PartRead | Library/Firmware/GD32F4xx_standard_peripheral/Include/gd32f4xx_can.h:427-490 | in a union of any number of pairwise disjoint field writers each reader finds its own value, reduced to its width |
| FieldUnions.NothingWritten | Library/Firmware/GD32F4xx_standard_peripheral/Include/gd32f4xx_can.h:427-490 | a reader that meets none of the written fields finds 0 |
| Priority.BitCounts | Library/Firmware/CMSIS/core_cm4.h:1616-1617 | preemption and subpriority bits add up to the implemented bits, and preemption gets min(n, 7 - group mod 8) of them |
| Priority.EncodeValue | Library/Firmware/CMSIS/core_cm4.h:1610-1623 | the encoded priority is (p mod 2^pre) * 2^sub + (s mod 2^sub) and below 2^n, for all 32-bit p, s and group |
| Priority.DecodeValue | Library/Firmware/CMSIS/core_cm4.h:1638-1649 | decoding any 32-bit priority gives (x / 2^sub mod 2^pre, x mod 2^sub) |
| Priority.DecodeAfterEncode | Library/Firmware/CMSIS/core_cm4.h:1610-1649 | decoding an encoded pair gives both levels, each reduced to its width |
| Priority.EncodeAfterDecode | Library/Firmware/CMSIS/core_cm4.h:1610-1649 | every priority below 2^n is the encoding of its decoding, for every grouping |
| Priority.StoredByteValue | Library/Firmware/CMSIS/core_cm4.h:1568-1574 | the byte stored is the priority modulo 2^n in the n upper bits |
| Priority.ReadByteValue | Library/Firmware/CMSIS/core_cm4.h:1588-1595 | NVIC_GetPriority returns the implemented bits of any stored byte |
| Priority.ReadAfterStore | Library/Firmware/CMSIS/core_cm4.h:1568-1595 | NVIC_GetPriority after NVIC_SetPriority returns the priority modulo 2^n |
| Priority.ByteOrder | Library/Firmware/CMSIS/core_cm4.h:1568-1623 | the bytes of encoded pairs order lexicographically by (p mod 2^pre, s mod 2^sub), both directions |
| Priority.GroupFieldOfEncoded | Library/Firmware/CMSIS/core_cm4.h:1568-1623 | bits [7:g+1] of the stored byte are the preemption level, scaled by the group bits the chip lacks |
| Priority.GroupOrder | Library/Firmware/CMSIS/core_cm4.h:1568-1623 | the group priority of one encoded pair is below another's exactly when its preemption level is smaller |
| Priority.IrqEnableAgreesIff | Library/Firmware/GD32F4xx_standard_peripheral/Source/gd32f4xx_misc.c:39-68 | nvic_irq_enable stores the byte of NVIC_EncodePriority and NVIC_SetPriority if and only if the grouping is 3 to 7 or the preemption level is a multiple of 16; for the other groupings it stores 0 |
| Aircr.SetGroupingOutcome | Library/Firmware/CMSIS/core_cm4.h:1453-1464 | the write carries the key, the register then holds the group modulo 8 and every other field as before |
| Aircr.GroupingRun | Library/Firmware/CMSIS/core_cm4.h:1453-1476 | over any run of grouping calls every write is keyed and changes nothing else, the last group is read back modulo 8, and a following system reset write keeps it |
| Aircr.ResetOutcome | Library/Firmware/CMSIS/core_cm4.h:1656-1664 | the reset write carries the key, requests the reset, keeps the grouping and sets nothing else |
| Aircr.VendorGroupingAgreesIff | Library/Firmware/GD32F4xx_standard_peripheral/Source/gd32f4xx_misc.c:25-29 | nvic_priority_group_set is accepted and installs the grouping; it leaves the register as NVIC_SetPriorityGrouping would if and only if the other fields were 0 |
| NvicModel.RunKeepsValid | Library/Firmware/CMSIS/core_cm4.h:354-369 | runs stay within the 240 lines and the configurable exceptions |
| NvicModel.RunFrame | Library/Firmware/CMSIS/core_cm4.h:1485-1574 | a run that does not mention a line leaves its enabled, pending, active and priority entry alone |
| NvicModel.LastWordDecides | Library/Firmware/CMSIS/core_cm4.h:1485-1541 | after any run a line is enabled (pending, active) exactly when the last event deciding that was an enable (a pend or raise, an entry) |
| NvicModel.UndecidedStays | Library/Firmware/CMSIS/core_cm4.h:1485-1574 | what no event of a run decides for a line, its priority included, stays as it was |
| NvicModel.LastPriorityIsRead | Library/Firmware/CMSIS/core_cm4.h:1568-1595 | after any run NVIC_GetPriority reads the last priority set for the line modulo 2^n |
| NvicDriver.SetLine | Library/Firmware/CMSIS/core_cm4.h:1485-1489 | setting the computed bit of the computed word adds exactly that line to the represented set |
| NvicDriver.ClearLine | Library/Firmware/CMSIS/core_cm4.h:1498-1501 | clearing it removes exactly that line |
| NvicDriver.TestLine | Library/Firmware/CMSIS/core_cm4.h:1514-1517 | masking with it decides membership of the line |
| NvicDriver.HandlerPlace | Library/Firmware/CMSIS/core_cm4.h:1568-1574 | (irq & 0xF) - 4 numbers the twelve configurable system exceptions from 0 in order |
| NvicDriver.Registers.constructor | Library/Firmware/CMSIS/core_cm4.h:354-369 | registers of zeros represent the reset state |
| NvicDriver.Registers.EnableIRQ | Library/Firmware/CMSIS/core_cm4.h:1485-1489 | sets bit irq mod 32 of word irq / 32 and no other bit; adds the line to the enabled set and changes nothing else |
| NvicDriver.Registers.DisableIRQ | Library/Firmware/CMSIS/core_cm4.h:1498-1501 | clears bit irq mod 32 of word irq / 32 and no other bit; removes the line from the enabled set and changes nothing else |
| NvicDriver.Registers.GetPendingIRQ | Library/Firmware/CMSIS/core_cm4.h:1514-1517 | returns bit irq mod 32 of word irq / 32: 1 if the line is pending and 0 otherwise |
| NvicDriver.Registers.SetPendingIRQ | Library/Firmware/CMSIS/core_cm4.h:1526-1529 | sets bit irq mod 32 of word irq / 32 and no other bit; adds the line to the pending set and changes nothing else |
| NvicDriver.Registers.ClearPendingIRQ | Library/Firmware/CMSIS/core_cm4.h:1538-1541 | clears bit irq mod 32 of word irq / 32 and no other bit; removes the line from the pending set and changes nothing else |
| NvicDriver.Registers.GetActive | Library/Firmware/CMSIS/core_cm4.h:1553-1556 | returns bit irq mod 32 of word irq / 32: 1 if the line is active and 0 otherwise |
| NvicDriver.Registers.SetPriority | Library/Firmware/CMSIS/core_cm4.h:1568-1574 | writes byte irq + 12 of SHP for a system exception and byte irq of IP for a line, and no other byte; so changes that priority and no other |
| NvicDriver.Registers.GetPriority | Library/Firmware/CMSIS/core_cm4.h:1588-1595 | returns the implemented bits of byte irq + 12 of SHP or byte irq of IP, which is the represented priority |
| NvicDriver.Registers.SetPriorityGrouping | Library/Firmware/CMSIS/core_cm4.h:1453-1464 | one write with 0x05FA in the upper half; bits 8 to 10 then hold the group modulo 8, the other fields and the controller are as before |
| NvicDriver.Registers.GetPriorityGrouping | Library/Firmware/CMSIS/core_cm4.h:1473-1476 | returns bits 8 to 10 of the register |
| NvicDriver.Registers.RequestSystemReset | Library/Firmware/CMSIS/core_cm4.h:1656-1664 | one write with 0x05FA, the grouping kept, the reset request (bit 2) set and the other fields 0 |
| NvicDriver.Registers.VendorPriorityGroupSet | Library/Firmware/GD32F4xx_standard_peripheral/Source/gd32f4xx_misc.c:25-29 | one keyed write; bits 8 to 10 then hold the grouping asked for, the fields beside it 0, and the controller is left alone |
| NvicDriver.Registers.VendorIrqEnable | Library/Firmware/GD32F4xx_standard_peripheral/Source/gd32f4xx_misc.c:39-68 | with four priority bits, makes the steps of NVIC_SetPriority with the encoded priority and NVIC_EnableIRQ if and only if the grouping is 3 to 7 or the level is a multiple of 16 |
| NvicDriver.Registers.Perform | Library/Firmware/CMSIS/core_cm4.h:1485-1574 | each call and each hardware action makes its abstract step |
| NvicDriver.Registers.PerformAll | Library/Firmware/CMSIS/core_cm4.h:1485-1595 | refinement: after any sequence of calls and hardware actions the registers represent the state the abstract run reaches |
| Nesting.StoredLevel | Library/Firmware/CMSIS/core_cm4.h:1568-1574 | the group priority of any stored byte is its preemption level in the upper bits, one of 2^pre levels |
| Nesting.PreemptsIff | Library/Firmware/CMSIS/core_cm4.h:1568-1623 | a priority is below the execution priority exactly when its level is below the level of every active exception |
| Nesting.OneLinePreemptsAnother | Library/Firmware/CMSIS/core_cm4.h:1568-1623 | while one handler runs, another line is taken exactly when its encoded preemption level is smaller; subpriorities never matter |
| Nesting.ReachedInvariant | Library/Firmware/CMSIS/core_cm4.h:1568-1623 | every reachable machine has strictly decreasing levels on its stack and active bits that match it |
| Nesting.BoundedNesting | Library/Firmware/CMSIS/core_cm4.h:1568-1623 | in every run that changes priorities of inactive exceptions only, at most 2^PreemptPriorityBits exceptions are active at once |
| Nesting.NestingInThisProject | app/Project/src/main.c:101 | with the grouping of this project at most sixteen |
| Nesting.BoundAttained | Library/Firmware/CMSIS/core_cm4.h:1568-1623 | for every number of implemented bits and every grouping some run nests 2^PreemptPriorityBits handlers |
| Nesting.NestWithoutBound | Library/Firmware/CMSIS/core_cm4.h:1568-1574 | if priorities of active exceptions may change and there is a preemption bit, some run nests any number of the 240 lines |
| Nesting.BoundNeedsInactiveLines | Library/Firmware/CMSIS/core_cm4.h:1568-1574 | with such changes the bound holds for all runs if and only if there is no preemption bit |
| Nesting.ControllerOf | Library/Firmware/CMSIS/core_cm4.h:1485-1595 | the controller of every reachable machine is that of a sequence of calls and hardware actions, so the driver's registers represent it |
| Nesting.ReachedLine | Library/Firmware/CMSIS/core_cm4.h:1485-1541 | in every reachable machine a line is enabled (pending) exactly when the last action on that enabled it (pended or raised it) |
| Nesting.TakenWasEnabledAndPending | Library/Firmware/CMSIS/core_cm4.h:1485-1541 | in every run a line is taken only if enabled and not disabled since, and pended or raised and neither cleared nor taken since |
| SysTick.Timer.Config | Library/Firmware/CMSIS/core_cm4.h:1695-1706 | succeeds exactly for 1 to 2^24 ticks (0 wraps around and fails), changes nothing on failure, and on success sets reload, counter and control word and gives byte 11 of SHP, and no other priority byte, the greatest storable priority |
| SysTick.GreatestPriority | Library/Firmware/CMSIS/core_cm4.h:1700 | the priority given to the timer can be stored and no storable one is greater |
| SysTick.Periods | Library/Firmware/CMSIS/core_cm4.h:1699-1704 | from any point of the count, k periods of load+1 cycles hold exactly k expiries and lead back to it |
| SysTick.PeriodicIff | Library/Firmware/CMSIS/core_cm4.h:1695-1706 | after a successful call every window of k*ticks cycles holds exactly k expiries if and only if ticks is at least 2 |
| ItmMailbox.InvariantHolds | Library/Firmware/CMSIS/core_cm4.h:1754-1763 | the protocol invariant holds after every interleaving of check, read and clear with the debugger's look and store |
| ItmMailbox.Delivery | Library/Firmware/CMSIS/core_cm4.h:1721-1763 | under every interleaving, characters received and the one in flight are the characters sent, in order, if and only if the sentinel is never sent |
| ItmMailbox.BytesAreDelivered | Library/Firmware/CMSIS/core_cm4.h:1721-1763 | characters 0 to 255 are all delivered, in order, under every interleaving |
| ItmMailbox.ResultMeaning | Library/Firmware/CMSIS/core_cm4.h:1747-1763 | a call returns -1 exactly when the buffer was empty at its check, unless -1 is sent; it never returns the sentinel |
| ItmMailbox.FullBufferIsStable | Library/Firmware/CMSIS/core_cm4.h:1754-1763 | a debugger that stores only after seeing the buffer empty cannot change a full one |
| ItmMailbox.CheckPredictsReceive | Library/Firmware/CMSIS/core_cm4.h:1773-1780 | ITM_CheckChar reports 1 exactly when a character waits, and the next receive call delivers it whatever the debugger does in between |
| ClockTree.PllFields | app/Project/src/system_gd32f4xx.c:841-842 | every field reader finds in the PLL word the factor it was given, and 0 between the fields |
| ClockTree.SourceSelected | app/Project/src/system_gd32f4xx.c:902-907 | comparing the masked word with the HXTAL constant decides the source bit |
| ClockTree.ExponentsMatchDividers | app/Project/src/system_gd32f4xx.c:883 | the exponents of the update are those of the AHB dividers the header names, powers of two from 2 to 512 without 32, and 0 for every other code |
| ClockTree.UpdatedFrequency | app/Project/src/system_gd32f4xx.c:886-918 | source 1 gives the crystal, 0 and 3 give 16 MHz, 2 the quotient of the PLL fields in 32-bit arithmetic, each divided by the divider of the AHB code |
| ClockTree.ConfigureThenRead | app/Project/src/system_gd32f4xx.c:896-908 | for every source and all factors the register can hold, the update reads the configured ones back; without overflow it gives the plain quotient |
| ClockTree.ConfigureThenReadExactly | app/Project/src/system_gd32f4xx.c:896-908 | when M divides the source and P the product, the result times M*P is source*N |
| ClockTree.TruncationBound | app/Project/src/system_gd32f4xx.c:908 | M*P*c <= src*N <= M*P*c + (M-1)*N + M*(P-1) for the truncated c |
| ClockTree.ShiftedClock | app/Project/src/system_gd32f4xx.c:915-918 | the AHB shift and the divisions make one floor |
| ClockTree.NoOverflowIff | app/Project/src/system_gd32f4xx.c:908 | every 9-bit N avoids overflow if and only if M >= 3 with the 25 MHz crystal, M >= 2 with the oscillator |
| ClockTree.DeclaredIff | app/Project/src/system_gd32f4xx.c:44-96 | a procedure runs at its declared frequency if and only if its source divided by M is 1 MHz |
| ClockTree.DeclaredForDefaultCrystal | app/Project/inc/gd32f4xx.h:31-33 | with the header's crystal exactly the oscillator and the 25 MHz procedures run as declared |
| ClockTree.VariantTable | app/Project/src/system_gd32f4xx.c:269-868 | the nine procedures are the three frequencies from the three sources; their factors and timeouts; Q is the least divisor that keeps the 48 MHz output at or below 48 MHz |
| ClockBringUp.SwitchIsEarned | app/Project/src/system_gd32f4xx.c:809-868 | in a run without violation PLLP is selected only after, in this order: bit 16 (crystal) or 0 (IRC16M) of RCU_CTL written, the stable flag above it seen, PLL word written, PLL enabled (24), seen stable (25), high-drive enabled, seen ready, selected, seen in use; with the APB prescalers in place |
| ClockBringUp.SwitchIsSeen | app/Project/src/system_gd32f4xx.c:861-867 | a completed run selected PLLP and then read bit 3 of RCU_CFG0 as set |
| ClockBringUp.PllWrittenBeforeEnabled | app/Project/src/system_gd32f4xx.c:841-845 | the PLL word is never written once the PLL has been enabled |
| ClockBringUp.NotYetSwitched | app/Project/src/system_gd32f4xx.c:823-826 | a run that has not come to the switch, such as a halted one, has not selected PLLP |
| ClockBringUp.PrescalersIntendedIff | app/Project/src/system_gd32f4xx.c:833-838 | or-ing the dividers leaves the intended ones if and only if the fields held nothing else at entry |
| ClockBoard.Board.AwaitOscillator | app/Project/src/system_gd32f4xx.c:541-550 | either stabilisation loop leaves at the first read that shows the flag, or after the timeout (one read more where the flag is tested first), and selects nothing |
| ClockBoard.Board.StartOscillator | app/Project/src/system_gd32f4xx.c:814-826 | sets bit 16 of RCU_CTL for the crystal or bit 0 for IRC16M and no other; reports stable only after the flag above it was seen; with a flag never shown, it fails after a known number of accesses |
| ClockBoard.Board.ConfigurePll | app/Project/src/system_gd32f4xx.c:829-845 | regulator, prescalers, PLL word and PLL enable, in an order the monitor accepts, with the final registers |
| ClockBoard.Board.HighDrive | app/Project/src/system_gd32f4xx.c:851-859 | high-drive is selected only once ready, and reported only once in use |
| ClockBoard.Board.SelectPll | app/Project/src/system_gd32f4xx.c:861-863 | selects PLLP in a cleared field, keeping the prescalers |
| ClockBoard.Board.BringUp | app/Project/src/system_gd32f4xx.c:809-868 | for every history of the hardware the run has no violation; it returns only with the PLL seen in use and with exactly the register bits the procedure sets, named by position; an oscillator that never stabilises halts it with nothing written but its enable bit, and ready hardware brings it through |
| ClockBoard.Board.SystemCoreClockUpdate | app/Project/src/system_gd32f4xx.c:877-919 | the crystal for source 1, 16 MHz for 0 and 3, the truncated quotient of the PLL fields for 2, divided by the divider of the AHB code in RCU_CFG0 |
| ClockBoard.Board.BringUpAndUpdate | app/Project/src/system_gd32f4xx.c:809-919 | after bring-up, the update gives the declared constant if and only if the crystal matches the procedure |
| MacAddresses.PackedSlot | Library/Firmware/GD32F4xx_standard_peripheral/Include/gd32f4xx_enet.h:609-610 | the two words packed from an address hold its six bytes in order and no filter setting |
| MacAddresses.MacRegisters.GetByteReadsSlot | Library/Firmware/GD32F4xx_standard_peripheral/Include/gd32f4xx_enet.h:613 | ENET_GET_MACADDR reads the byte of the slot for every slot and byte, whatever the upper half of the high register shows |
| MacAddresses.MacRegisters.AddressSet | Library/Firmware/GD32F4xx_standard_peripheral/Source/gd32f4xx_enet.c:1026-1030 | the low register holds bytes 0 to 3, the high one bytes 4 and 5 with its upper half 0; the filter is off and the other slots are unchanged |
| MacAddresses.MacRegisters.AddressGet | Library/Firmware/GD32F4xx_standard_peripheral/Source/gd32f4xx_enet.c:1044-1052 | fills the buffer with bytes 0 to 3 of the low register and 0 and 1 of the high one, and writes no byte beyond |
| MacAddresses.MacRegisters.FilterEnable | Library/Firmware/GD32F4xx_standard_peripheral/Source/gd32f4xx_enet.c:1429-1432 | sets bit 31 of the high register of the slot and no other bit of any register |
| MacAddresses.MacRegisters.FilterDisable | Library/Firmware/GD32F4xx_standard_peripheral/Source/gd32f4xx_enet.c:1444-1447 | clears bit 31 of the high register of the slot and no other bit of any register |
| MacAddresses.MacRegisters.FilterConfig | Library/Firmware/GD32F4xx_standard_peripheral/Source/gd32f4xx_enet.c:1471-1482 | puts the byte mask in bits 24 to 29 and the compared address in bit 30 of the high register, and changes no other bit |
| MacAddresses.LastAddressStays | Library/Firmware/GD32F4xx_standard_peripheral/Source/gd32f4xx_enet.c:1026-1482 | after any run of address and filter calls a slot holds the address last set for it |
| MacAddresses.LastCallDecides | Library/Firmware/GD32F4xx_standard_peripheral/Source/gd32f4xx_enet.c:1026-1482 | after any run a filter is enabled exactly when the last call that set the address, enabled or disabled it enabled it; mask and type are those of the last configuration since the address was set, else 0 |
| MacAddresses.UndecidedStays | Library/Firmware/GD32F4xx_standard_peripheral/Source/gd32f4xx_enet.c:1026-1482 | calls on other slots, and calls that do not decide a setting, leave it as it was |
| MacAddresses.SetKeepsFilterIff | Library/Firmware/GD32F4xx_standard_peripheral/Source/gd32f4xx_enet.c:1026-1030 | setting an address keeps the filter settings if and only if there were none |
| CanMailbox.DataRoundTrip | Library/Firmware/GD32F4xx_standard_peripheral/Include/gd32f4xx_can.h:434-490 | byte k of four stands in bits 8k to 8k+7 of its data word, and the four are read back in order |
| CanMailbox.LengthRoundTrip | Library/Firmware/GD32F4xx_standard_peripheral/Source/gd32f4xx_can.c:338-341 | the length read back is the length written modulo 16 |
| CanMailbox.ReceivedWord | Library/Firmware/GD32F4xx_standard_peripheral/Source/gd32f4xx_can.c:327-337 | the identifier word is the union of disjoint fields for identifier, format and type, whatever the mailbox held |
| CanMailbox.FilledBits | Library/Firmware/GD32F4xx_standard_peripheral/Source/gd32f4xx_can.c:327-352 | every bit of the identifier word of a documented message, the length modulo 16 with the rest of its register kept, and where each data byte stands |
| CanMailbox.Requested | Library/Firmware/GD32F4xx_standard_peripheral/Source/gd32f4xx_can.c:351-352 | every filled mailbox has the transmission request bit set, whatever it held and whatever the message |
| CanMailbox.SomeEntryArrives | Library/Firmware/GD32F4xx_standard_peripheral/Source/gd32f4xx_can.c:309-355 | every filled mailbox is carried to some receive FIFO entry |
| CanMailbox.DecodedFields | Library/Firmware/GD32F4xx_standard_peripheral/Source/gd32f4xx_can.c:455-482 | where the receiver finds each part; the identifier the format does not use keeps its previous value |
| CanMailbox.RoundTripIff | Library/Firmware/GD32F4xx_standard_peripheral/Source/gd32f4xx_can.c:309-490 | a message whose requested mailbox is carried arrives as sent if and only if its format and type are the documented constants, its identifier fits its format and its length four bits |
| CanMailbox.Controller.Transmit | Library/Firmware/GD32F4xx_standard_peripheral/Source/gd32f4xx_can.c:309-355 | the first mailbox shown empty takes the message and its transmission is requested once, when it is complete; the others stay as they were, and with none nothing is written |
| DmaFlags.ClearedShown | Library/Firmware/GD32F4xx_standard_peripheral/Include/gd32f4xx_dma.h:202 | clearing the flags of one channel removes these and keeps those of every other channel |
| DmaFlags.FlagPlace | Library/Firmware/GD32F4xx_standard_peripheral/Include/gd32f4xx_dma.h:202 | flag i of channels 0 to 3 of a bank stands at bit 0, 6, 16 or 22 plus i, and nothing else is set |
| DmaFlags.TestedShown | Library/Firmware/GD32F4xx_standard_peripheral/Include/gd32f4xx_dma.h:202 | masking with the shifted flags tests the flags shown for the channel |
| DmaFlags.ClearIsExactIff | Library/Firmware/GD32F4xx_standard_peripheral/Source/gd32f4xx_dma.c:227-235 | the read-modify-write clears exactly the requested flags if and only if the clear register shows no other pending one |
| DmaFlags.SurvivesIff | Library/Firmware/GD32F4xx_standard_peripheral/Source/gd32f4xx_dma.c:227-235 | a flag survives any run of clears if and only if none names it for its channel |
| DmaFlags.Controller.FlagGet | Library/Firmware/GD32F4xx_standard_peripheral/Source/gd32f4xx_dma.c:194-210 | returns SET exactly when one of the flags is pending for the channel, over the two status registers |
| DmaFlags.Controller.FlagClear | Library/Firmware/GD32F4xx_standard_peripheral/Source/gd32f4xx_dma.c:227-235 | the new registers; and exactly the named flags are gone when the clear register shows no other pending one |
| DmaFlags.Controller.ClearAll | Library/Firmware/GD32F4xx_standard_peripheral/Source/gd32f4xx_dma.c:227-235 | a sequence of clears refines the abstract run over the eight channels |
| DmaFlags.AddressesFillBlock | Library/Firmware/GD32F4xx_standard_peripheral/Include/gd32f4xx_dma.h:205-210 | every word address of the channel block belongs to exactly one register of one channel |
| DmaFlags.RegisterOrder | Library/Firmware/GD32F4xx_standard_peripheral/Include/gd32f4xx_dma.h:205-210 | the six registers of a channel follow each other word by word in the order control, counter, peripheral, memory 0, memory 1, FIFO |
| FlagDescriptors.UnpackedIff | Library/Firmware/GD32F4xx_standard_peripheral/Include/gd32f4xx_can.h:285-287 | a descriptor is 64 * register + position; both are given back if and only if the position is below 32 |
| FlagDescriptors.Injective | Library/Firmware/GD32F4xx_standard_peripheral/Include/gd32f4xx_enet.h:601-603 | descriptors are equal exactly when register and position are |
| FlagDescriptors.FlagGetReadsBit | Library/Firmware/GD32F4xx_standard_peripheral/Source/gd32f4xx_can.c:745-752 | can_flag_get returns the bit the descriptor was made for |

## Left out

- `system_clock_16m_irc16m` and `system_clock_hxtal`: the two procedures without the PLL. The first waits on a zero mask (app/Project/src/system_gd32f4xx.c:215-216), so its wait never iterates.
- `SystemInit`: its body is commented out; that the PLL and high-drive are off and PLLP is not selected is the precondition of `ClockBoard.Board.BringUp`.
- ClockBoard.Board.BringUp: a polling loop without a timeout is observed for an arbitrary number `fuel` of reads, and the endless loop after a failed start is the outcome `Halted`; liveness is stated for hardware that is always ready. That PMU writes have no effect while the PMU clock is off is not modelled.
- ClockBoard.Board.SystemCoreClockUpdate: a PLL divider field of 0 is excluded while PLLP is reported in use, because the source divides by it.
- Aircr.ResetOutcome: the read-only ENDIANNESS bit, the self-clearing action bits and what the reset does to the machine are not modelled.
- Aircr.GroupingRun: the writes of the vendor function are not mixed into the run; `Aircr.VendorGroupingAgreesIff` compares one of them.
- Nesting.BoundedNesting: the stack holds configurable exceptions. NMI, HardFault and reset are not on it, enable and pending bits of system exceptions are not kept (they may be taken at any time), and a handler returns in stack order.
- SysTick.PeriodicIff: no write to the counter and no reconfiguration inside the window.
- ItmMailbox.Delivery: one reading program; `ITM_SendChar` writes to another port and is not modelled.
- CanMailbox.RoundTripIff: the bus carries all eight data bytes whatever the length says; arbitration, acceptance filters, the filter index, time stamps, the release of the receive FIFO and the clearing of CAN flags are not modelled.
- MacAddresses.MacRegisters.FilterConfig: filter calls for slot 0, which the documentation excludes, and masks and types that are not the named constants.
- DmaFlags.Controller.FlagClear: the reserved bits of the status registers and new flags raised by the hardware are not modelled.
- The per-bank CAN register constants written by hand; some differ from the banked formulas (Library/Firmware/GD32F4xx_standard_peripheral/Include/gd32f4xx_can.h:45, 78 and 100).
- The field macros of the RTC, FMC and other peripherals: more instances of the laws of `BitFields`.
- `nvic_irq_disable`, the vector table and low-power calls of gd32f4xx_misc.c: each is one write.
- The other peripheral drivers, uC/OS-III, lwIP, the USB stack and the applications.
- Inline-assembly intrinsics and barriers.
