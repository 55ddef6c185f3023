/**
  The abstract interrupt controller: which lines are enabled, pending and active, and the
  priority byte of every configurable exception.  Each event is a driver call or a hardware
  action; a run is a sequence of events.
*/
module NvicModel {
  import opened Words
  import opened Priority

  /** The external interrupt lines of core_cm4.h: IP[240]. */
  const LINES := 240
  /** The first system exception with a configurable priority: exception number 4. */
  const FIRST_SYSTEM := -12

  predicate ExternalLine(irq: int) {
    0 <= irq < LINES
  }

  predicate Configurable(irq: int) {
    FIRST_SYSTEM <= irq < LINES
  }

  datatype Nvic = Nvic(enabled: set<int>, pending: set<int>, active: set<int>, priority: map<int, u8>) {
    ghost predicate Valid() {
      && (forall irq :: irq in priority <==> Configurable(irq))
      && (forall irq <- enabled + pending + active :: ExternalLine(irq))
    }
  }

  /** After reset nothing is enabled, pending or active, and every priority is zero. */
  function ResetState(): (s: Nvic)
    ensures s.Valid()
  {
    Nvic({}, {}, {}, map irq: int | FIRST_SYSTEM <= irq < LINES && Configurable(irq) :: 0)
  }

  datatype Event =
    | Enable(irq: int)
    | Disable(irq: int)
    | SetPending(irq: int)
    | ClearPending(irq: int)
    | SetPriority(irq: int, value: u32)
      // the hardware: a line is raised, its handler is entered, its handler returns
    | Raise(irq: int)
    | Enter(irq: int)
    | Leave(irq: int)

  /** What the driver documentation asks of the interrupt number. */
  predicate Callable(e: Event) {
    if e.SetPriority? then Configurable(e.irq) else ExternalLine(e.irq)
  }

  function Step(n: nat, s: Nvic, e: Event): Nvic
    requires Implementable(n)
  {
    match e
    case Enable(irq) => s.(enabled := s.enabled + {irq})
    case Disable(irq) => s.(enabled := s.enabled - {irq})
    case SetPending(irq) => s.(pending := s.pending + {irq})
    case ClearPending(irq) => s.(pending := s.pending - {irq})
    case SetPriority(irq, value) => s.(priority := s.priority[irq := StoredByte(n, value)])
    case Raise(irq) => s.(pending := s.pending + {irq})
    case Enter(irq) => s.(pending := s.pending - {irq}, active := s.active + {irq})
    case Leave(irq) => s.(active := s.active - {irq})
  }

  function Run(n: nat, s: Nvic, events: seq<Event>): Nvic
    requires Implementable(n)
    decreases events
  {
    if events == [] then s else Run(n, Step(n, s, events[0]), events[1..])
  }

  lemma {:induction false} RunAppend(n: nat, s: Nvic, events: seq<Event>, e: Event)
    requires Implementable(n)
    ensures Run(n, s, events + [e]) == Step(n, Run(n, s, events), e)
    decreases events
  {
    if events == [] {
      assert Run(n, s, [e]) == Run(n, Step(n, s, e), []);
    } else {
      assert (events + [e])[1..] == events[1..] + [e];
      RunAppend(n, Step(n, s, events[0]), events[1..], e);
    }
  }

  lemma {:induction false} RunKeepsValid(n: nat, s: Nvic, events: seq<Event>)
    requires Implementable(n) && s.Valid()
    requires forall e <- events :: Callable(e)
    ensures Run(n, s, events).Valid()
    decreases events
  {
    if events != [] {
      assert Callable(events[0]);
      RunKeepsValid(n, Step(n, s, events[0]), events[1..]);
    }
  }

  // ----- what a run means for one line: only the last word on it counts -----

  /** The entry of one line. */
  datatype Line = Line(enabled: bool, pending: bool, active: bool, priority: u8)

  function LineOf(s: Nvic, irq: int): Line
    requires irq in s.priority
  {
    Line(irq in s.enabled, irq in s.pending, irq in s.active, s.priority[irq])
  }

  predicate DecidesEnabled(e: Event, irq: int) {
    (e.Enable? || e.Disable?) && e.irq == irq
  }

  predicate DecidesPending(e: Event, irq: int) {
    (e.SetPending? || e.ClearPending? || e.Raise? || e.Enter?) && e.irq == irq
  }

  predicate DecidesActive(e: Event, irq: int) {
    (e.Enter? || e.Leave?) && e.irq == irq
  }

  /** Each event changes only the entry of its own line. */
  lemma StepFrame(n: nat, s: Nvic, e: Event, irq: int)
    requires Implementable(n) && s.Valid() && Configurable(irq) && e.irq != irq
    ensures irq in Step(n, s, e).priority && LineOf(Step(n, s, e), irq) == LineOf(s, irq)
  {
  }

  /** A run in which a line is not mentioned leaves its entry alone. */
  lemma {:induction false} RunFrame(n: nat, s: Nvic, events: seq<Event>, irq: int)
    requires Implementable(n) && s.Valid() && Configurable(irq)
    requires forall e <- events :: Callable(e) && e.irq != irq
    ensures irq in Run(n, s, events).priority && LineOf(Run(n, s, events), irq) == LineOf(s, irq)
    decreases events
  {
    if events != [] {
      assert Callable(events[0]) && events[0].irq != irq;
      StepFrame(n, s, events[0], irq);
      RunFrame(n, Step(n, s, events[0]), events[1..], irq);
    }
  }

  /** A line is enabled after a run exactly when the last Enable or Disable of it was an Enable;
      likewise for pending and active, over the driver and the hardware. */
  lemma {:induction false} LastWordDecides(n: nat, s: Nvic, before: seq<Event>, e: Event, after: seq<Event>, irq: int)
    requires Implementable(n)
    ensures DecidesEnabled(e, irq) && (forall a <- after :: !DecidesEnabled(a, irq)) ==>
              (irq in Run(n, s, before + [e] + after).enabled <==> e.Enable?)
    ensures DecidesPending(e, irq) && (forall a <- after :: !DecidesPending(a, irq)) ==>
              (irq in Run(n, s, before + [e] + after).pending <==> e.SetPending? || e.Raise?)
    ensures DecidesActive(e, irq) && (forall a <- after :: !DecidesActive(a, irq)) ==>
              (irq in Run(n, s, before + [e] + after).active <==> e.Enter?)
    decreases |after|
  {
    if after == [] {
      assert before + [e] + after == before + [e];
      RunAppend(n, s, before, e);
    } else {
      var k := |after| - 1;
      assert before + [e] + after == (before + [e] + after[..k]) + [after[k]];
      assert after[k] in after && forall a <- after[..k] :: a in after;
      RunAppend(n, s, before + [e] + after[..k], after[k]);
      LastWordDecides(n, s, before, e, after[..k], irq);
    }
  }

  /** What no event of a run decides stays as it was. */
  lemma {:induction false} UndecidedStays(n: nat, s: Nvic, events: seq<Event>, irq: int)
    requires Implementable(n)
    ensures (forall e <- events :: !DecidesEnabled(e, irq)) ==>
              (irq in Run(n, s, events).enabled <==> irq in s.enabled)
    ensures (forall e <- events :: !DecidesPending(e, irq)) ==>
              (irq in Run(n, s, events).pending <==> irq in s.pending)
    ensures (forall e <- events :: !DecidesActive(e, irq)) ==>
              (irq in Run(n, s, events).active <==> irq in s.active)
    ensures irq in s.priority && (forall e <- events :: !(e.SetPriority? && e.irq == irq)) ==>
              irq in Run(n, s, events).priority && Run(n, s, events).priority[irq] == s.priority[irq]
    decreases events
  {
    hide StoredByte;
    if events != [] {
      assert events[0] in events;
      UndecidedStays(n, Step(n, s, events[0]), events[1..], irq);
    }
  }

  /** The priority read back for a line after a run is the last value set for it, reduced to the
      implemented bits. */
  lemma {:induction false} LastPriorityIsRead(n: nat, s: Nvic, before: seq<Event>, irq: int, value: u32,
                                              after: seq<Event>)
    requires Implementable(n)
    requires forall a <- after :: !(a.SetPriority? && a.irq == irq)
    ensures var final := Run(n, s, before + [SetPriority(irq, value)] + after);
            irq in final.priority && ReadByte(n, final.priority[irq]) == LowPart(value, n)
    decreases |after|
  {
    if after == [] {
      assert before + [SetPriority(irq, value)] + after == before + [SetPriority(irq, value)];
      RunAppend(n, s, before, SetPriority(irq, value));
      ReadAfterStore(n, value);
    } else {
      var k := |after| - 1;
      var short := before + [SetPriority(irq, value)] + after[..k];
      assert before + [SetPriority(irq, value)] + after == short + [after[k]];
      RunAppend(n, s, short, after[k]);
      LastPriorityIsRead(n, s, before, irq, value, after[..k]);
    }
  }
}
