/**
  Nested exceptions: the processor of section B1.5.4 of the ARMv7-M Architecture Reference
  Manual on top of the controller of `NvicModel`.  An exception is taken when its priority is
  below the execution priority, which is the least group priority among the active exceptions
  (256 when there is none), possibly lowered further by a mask register.
*/
module Nesting {
  import opened Words
  import opened Priority
  import opened NvicModel

  /** `stack` holds the active configurable exceptions, the innermost one last. */
  datatype Machine = Machine(nvic: Nvic, stack: seq<int>)

  datatype Action =
    | Call(e: Event)                   // a driver call
    | LineRaised(irq: int)             // an external line becomes pending
    | Preempt(irq: int, boost: nat)    // an exception is taken; `boost` is the mask registers' limit
    | Return                           // the innermost handler returns

  /** The numbers of the processor: implemented bits and the grouping, fixed for the run.
      `anytime` allows a program to change the priority of an active exception. */
  datatype Setup = Setup(n: nat, group: u32, anytime: bool) {
    predicate Valid() {
      Implementable(n)
    }
    function Point(): nat {
      GroupOf(group) + 1
    }
    function PreemptBits(): nat {
      PreemptPriorityBits(n, group)
    }
  }

  /** The priority with its subpriority bits cleared. */
  function GroupPriority(c: Setup, stored: u8): nat {
    Doubled(Halved(stored, c.Point()), c.Point())
  }

  function ExecutionPriority(c: Setup, priority: map<int, u8>, stack: seq<int>): nat
    requires forall irq <- stack :: irq in priority
  {
    if stack == [] then 256
    else
      var top := stack[|stack| - 1];
      assert top in stack;
      var rest := ExecutionPriority(c, priority, stack[..|stack| - 1]);
      var own := GroupPriority(c, priority[top]);
      if own < rest then own else rest
  }

  ghost predicate WellFormed(m: Machine) {
    && m.nvic.Valid()
    && (forall irq <- m.stack :: Configurable(irq))
  }

  ghost predicate Allowed(c: Setup, m: Machine, a: Action)
    requires c.Valid() && WellFormed(m)
  {
    match a
    case Call(e) =>
      && Callable(e)
      && !e.Raise? && !e.Enter? && !e.Leave?
      && (e.SetPriority? && e.irq in m.stack ==> c.anytime)
    case LineRaised(irq) => ExternalLine(irq)
    case Preempt(irq, boost) =>
      && Configurable(irq)
      && (irq >= 0 ==> irq in m.nvic.enabled && irq in m.nvic.pending)
      && m.nvic.priority[irq] < boost
      && m.nvic.priority[irq] < ExecutionPriority(c, m.nvic.priority, m.stack)
    case Return => m.stack != []
  }

  /** Only external lines have enable, pending and active bits in the controller. */
  function Apply(c: Setup, m: Machine, a: Action): Machine
    requires c.Valid()
    requires a.Return? ==> m.stack != []
  {
    match a
    case Call(e) => m.(nvic := Step(c.n, m.nvic, e))
    case LineRaised(irq) => m.(nvic := Step(c.n, m.nvic, Raise(irq)))
    case Preempt(irq, _) =>
      Machine(if irq >= 0 then Step(c.n, m.nvic, Enter(irq)) else m.nvic, m.stack + [irq])
    case Return =>
      var irq := m.stack[|m.stack| - 1];
      Machine(if irq >= 0 then Step(c.n, m.nvic, Leave(irq)) else m.nvic, m.stack[..|m.stack| - 1])
  }

  /** `m` is reached from reset by the actions. */
  ghost predicate Reached(c: Setup, actions: seq<Action>, m: Machine)
    requires c.Valid()
    decreases actions
  {
    if actions == [] then m == Machine(ResetState(), [])
    else
      exists before: Machine ::
        && Reached(c, actions[..|actions| - 1], before)
        && WellFormed(before)
        && Allowed(c, before, actions[|actions| - 1])
        && m == Apply(c, before, actions[|actions| - 1])
  }

  // ----- preemption levels -----

  /** The preemption level of a stored priority: the group bits the chip implements. */
  function Level(c: Setup, stored: u8): nat
    requires c.Valid()
  {
    Halved(stored, 8 - c.PreemptBits())
  }

  lemma PointBounds(c: Setup)
    requires c.Valid()
    ensures c.PreemptBits() <= 8 - c.Point() && c.PreemptBits() <= c.n
    ensures c.PreemptBits() == 8 - c.Point() || c.PreemptBits() == c.n
  {
  }

  /** What SetPriority stores is a multiple of the least implemented bit, so the group priority
      is the level, moved to the top of the byte; and there are 2^PreemptPriorityBits levels. */
  lemma StoredLevel(c: Setup, value: u32)
    requires c.Valid()
    ensures var b := StoredByte(c.n, value);
            && GroupPriority(c, b) == Doubled(Level(c, b), 8 - c.PreemptBits())
            && Level(c, b) < Pow2(c.PreemptBits())
  {
    hide Halved, Doubled, LowPart, Pow2, StoredByte, PreemptPriorityBits, GroupOf;
    PointBounds(c);
    StoredByteValue(c.n, value);
    LowPartBound(value, c.n);
    var v, b := LowPart(value, c.n), StoredByte(c.n, value);
    ByteBound(b);
    HalvedBound(b, c.PreemptBits(), 8 - c.PreemptBits());
    if c.PreemptBits() != 8 - c.Point() {
      // all implemented bits are group bits: nothing is cleared
      DoubledTwice(v, 8 - c.n - c.Point(), c.Point());
      SplitAtZero(Doubled(v, 8 - c.n - c.Point()), c.Point());
      SplitAtZero(v, 8 - c.n);
    }
  }

  lemma ByteBound(b: u8)
    ensures b < Pow2(8)
  {
    PowersOfTwo();
  }

  lemma SplitAtZero(x: nat, k: nat)
    ensures Halved(Doubled(x, k), k) == x
  {
    SplitSum(x, 0, k);
  }

  /** A priority is below a group priority exactly when its group is smaller. */
  lemma BelowGroup(x: nat, q: nat, k: nat)
    ensures x < Doubled(q, k) <==> Halved(x, k) < q
  {
    Recompose(x, k);
    LowPartBound(x, k);
    DoublingKeepsOrder(Halved(x, k), q, k);
    if Halved(x, k) < q {
      NextMultiple(Halved(x, k), q, k);
    }
  }

  /** The invariant: every priority is a stored one, and going up the stack the levels strictly
      decrease. */
  ghost predicate Stored(c: Setup, m: Machine)
    requires c.Valid()
  {
    forall irq <- m.nvic.priority ::
      && GroupPriority(c, m.nvic.priority[irq]) == Doubled(Level(c, m.nvic.priority[irq]), 8 - c.PreemptBits())
      && Level(c, m.nvic.priority[irq]) < Pow2(c.PreemptBits())
  }

  /** The level of the i-th active exception, counted from the outermost. */
  ghost function LevelAt(c: Setup, m: Machine, i: nat): nat
    requires c.Valid() && WellFormed(m) && i < |m.stack|
  {
    assert m.stack[i] in m.stack && Configurable(m.stack[i]);
    Level(c, m.nvic.priority[m.stack[i]])
  }

  ghost predicate Descending(c: Setup, m: Machine)
    requires c.Valid() && WellFormed(m)
  {
    forall i, j | 0 <= i < j < |m.stack| :: LevelAt(c, m, j) < LevelAt(c, m, i)
  }

  /** The controller's active bits are the external lines on the stack. */
  ghost predicate ActiveBits(m: Machine) {
    forall irq | ExternalLine(irq) :: irq in m.nvic.active <==> irq in m.stack
  }

  /** A priority below the execution priority has a level below every active level, and only then. */
  lemma {:induction false} PreemptsIff(c: Setup, priority: map<int, u8>, stack: seq<int>, b: u8)
    requires c.Valid()
    requires forall irq <- stack :: irq in priority
    requires forall irq <- stack ::
               GroupPriority(c, priority[irq]) == Doubled(Level(c, priority[irq]), 8 - c.PreemptBits())
    ensures b < ExecutionPriority(c, priority, stack)
            <==> forall irq <- stack :: Level(c, b) < Level(c, priority[irq])
  {
    if stack != [] {
      var top, rest := stack[|stack| - 1], stack[..|stack| - 1];
      assert stack == rest + [top];
      PreemptsIff(c, priority, rest, b);
      BelowLevel(c, b, priority[top]);
    }
  }

  lemma BelowLevel(c: Setup, b: u8, top: u8)
    requires c.Valid()
    requires GroupPriority(c, top) == Doubled(Level(c, top), 8 - c.PreemptBits())
    ensures b < GroupPriority(c, top) <==> Level(c, b) < Level(c, top)
  {
    BelowGroup(b, Level(c, top), 8 - c.PreemptBits());
  }

  /** The level of an encoded priority is the preemption level that was encoded. */
  lemma LevelOfEncoded(c: Setup, preempt: u32, sub: u32)
    requires c.Valid()
    ensures Level(c, EncodedByte(c.n, c.group, preempt, sub)) == LowPart(preempt, c.PreemptBits())
  {
    var pb, sb := c.PreemptBits(), SubPriorityBits(c.n, c.group);
    BitCounts(c.n, c.group);
    EncodedByteValue(c.n, c.group, preempt, sub);
    LowPartBound(sub, sb);
    GroupFieldWithin(LowPart(preempt, pb), LowPart(sub, sb), sb, 8 - c.n);
  }

  lemma LevelOfSmall(c: Setup, level: u32)
    requires c.Valid() && level < Pow2(c.PreemptBits())
    ensures Level(c, StoredByte(c.n, EncodePriority(c.n, c.group, level, 0))) == level
  {
    LevelOfEncoded(c, level, 0);
    SmallLowPart(level, c.PreemptBits());
  }

  /** While the handler of one line runs, a line with another encoded priority is taken exactly when
      its preemption level, reduced to its width, is smaller; subpriorities never matter. */
  lemma OneLinePreemptsAnother(c: Setup, priority: map<int, u8>, running: int, p: u32, s: u32, p': u32, s': u32)
    requires c.Valid() && running in priority && priority[running] == EncodedByte(c.n, c.group, p, s)
    ensures EncodedByte(c.n, c.group, p', s') < ExecutionPriority(c, priority, [running])
            <==> LowPart(p', c.PreemptBits()) < LowPart(p, c.PreemptBits())
  {
    StoredLevel(c, EncodePriority(c.n, c.group, p, s));
    LevelOfEncoded(c, p, s);
    LevelOfEncoded(c, p', s');
    PreemptsIff(c, priority, [running], EncodedByte(c.n, c.group, p', s'));
    assert running in [running];
  }

  ghost predicate Invariant(c: Setup, m: Machine)
    requires c.Valid()
  {
    WellFormed(m) && Stored(c, m) && Descending(c, m) && ActiveBits(m)
  }

  lemma InitialInvariant(c: Setup)
    requires c.Valid()
    ensures Invariant(c, Machine(ResetState(), []))
  {
    StoredLevel(c, 0);
    ZeroStored(c.n);
  }

  lemma ZeroStored(n: nat)
    requires Implementable(n)
    ensures StoredByte(n, 0) == 0
  {
    StoredByteValue(n, 0);
    DoubledValue(0, 8 - n);
  }

  lemma StoredStep(c: Setup, m: Machine, a: Action)
    requires c.Valid() && WellFormed(m) && Stored(c, m) && Allowed(c, m, a)
    ensures WellFormed(Apply(c, m, a)) && Stored(c, Apply(c, m, a))
  {
    hide GroupPriority, Level, Doubled, Halved, PreemptPriorityBits, Pow2, StoredByte, ExecutionPriority;
    if a.Call? && a.e.SetPriority? {
      StoredLevel(c, a.e.value);
    }
  }

  /** Taking an exception pushes a level below all others; nothing else reorders the stack. */
  lemma DescendingStep(c: Setup, m: Machine, a: Action)
    requires c.Valid() && !c.anytime && Invariant(c, m) && Allowed(c, m, a)
    requires WellFormed(Apply(c, m, a))
    ensures Descending(c, Apply(c, m, a))
    ensures a.Preempt? ==> a.irq !in m.stack
  {
    hide GroupPriority, Level, Doubled, Halved, PreemptPriorityBits, Pow2, StoredByte, ExecutionPriority;
    var m' := Apply(c, m, a);
    if a.Preempt? {
      PreemptsIff(c, m.nvic.priority, m.stack, m.nvic.priority[a.irq]);
    }
    forall i, j | 0 <= i < j < |m'.stack|
      ensures LevelAt(c, m', j) < LevelAt(c, m', i)
    {
      assert i < |m.stack| && m.stack[i] in m.stack && m'.stack[i] == m.stack[i];
      if j < |m.stack| {
        assert m.stack[j] in m.stack && m'.stack[j] == m.stack[j];
        assert LevelAt(c, m, j) < LevelAt(c, m, i);
      } else {
        assert a.Preempt? && m'.stack[j] == a.irq;
      }
    }
  }

  lemma ActiveStep(c: Setup, m: Machine, a: Action)
    requires c.Valid() && !c.anytime && Invariant(c, m) && Allowed(c, m, a)
    requires a.Preempt? ==> a.irq !in m.stack
    ensures ActiveBits(Apply(c, m, a))
  {
    hide GroupPriority, Level, Doubled, Halved, PreemptPriorityBits, Pow2, StoredByte, ExecutionPriority;
    if a.Return? {
      var top, rest := m.stack[|m.stack| - 1], m.stack[..|m.stack| - 1];
      assert m.stack == rest + [top];
      forall i | 0 <= i < |rest|
        ensures rest[i] != top
      {
        assert LevelAt(c, m, |m.stack| - 1) < LevelAt(c, m, i);
      }
    }
  }

  lemma InvariantStep(c: Setup, m: Machine, a: Action)
    requires c.Valid() && !c.anytime && Invariant(c, m) && Allowed(c, m, a)
    ensures Invariant(c, Apply(c, m, a))
  {
    StoredStep(c, m, a);
    DescendingStep(c, m, a);
    ActiveStep(c, m, a);
  }

  lemma {:induction false} ReachedInvariant(c: Setup, actions: seq<Action>, m: Machine)
    requires c.Valid() && !c.anytime && Reached(c, actions, m)
    ensures Invariant(c, m)
    decreases actions
  {
    if actions == [] {
      InitialInvariant(c);
    } else {
      var last := |actions| - 1;
      var before: Machine :|
        && Reached(c, actions[..last], before) && WellFormed(before)
        && Allowed(c, before, actions[last]) && m == Apply(c, before, actions[last]);
      ReachedInvariant(c, actions[..last], before);
      InvariantStep(c, before, actions[last]);
    }
  }

  /** A strictly decreasing sequence of naturals below a bound is no longer than the bound. */
  lemma {:induction false} DecreasingIsShort(levels: seq<nat>, bound: nat)
    requires forall l <- levels :: l < bound
    requires forall i, j | 0 <= i < j < |levels| :: levels[j] < levels[i]
    ensures |levels| <= bound
  {
    if levels != [] {
      forall l <- levels[1..]
        ensures l < levels[0]
      {
        var j :| 1 <= j < |levels| && levels[j] == l;
      }
      DecreasingIsShort(levels[1..], levels[0]);
      assert levels[0] in levels;
    }
  }

  /** Bounded nesting: in every run that changes priorities only of inactive exceptions, the
      active exceptions have strictly decreasing preemption levels, so at most
      2^PreemptPriorityBits of them are active at once. */
  lemma BoundedNesting(c: Setup, actions: seq<Action>, m: Machine)
    requires c.Valid() && !c.anytime && Reached(c, actions, m)
    ensures WellFormed(m) && Descending(c, m) && ActiveBits(m)
    ensures |m.stack| <= Pow2(c.PreemptBits())
  {
    ReachedInvariant(c, actions, m);
    var levels := seq(|m.stack|, i requires 0 <= i < |m.stack| => LevelAt(c, m, i));
    forall i | 0 <= i < |m.stack|
      ensures levels[i] < Pow2(c.PreemptBits())
    {
      assert m.stack[i] in m.stack && Configurable(m.stack[i]);
    }
    DecreasingIsShort(levels, Pow2(c.PreemptBits()));
  }

  /** Four implemented bits and the grouping of this project, four bits of preemption: at most
      sixteen nested handlers. */
  lemma NestingInThisProject(c: Setup, actions: seq<Action>, m: Machine)
    requires c == Setup(4, 3, false) && Reached(c, actions, m)
    ensures |m.stack| <= 16
  {
    PowersOfTwo();
    GroupValue(3);
    BoundedNesting(c, actions, m);
  }

  /** The controller of a reached machine is the one the driver's registers represent after the
      same calls and hardware actions. */
  lemma {:induction false} ControllerOf(c: Setup, actions: seq<Action>, m: Machine) returns (events: seq<Event>)
    requires c.Valid() && Reached(c, actions, m)
    ensures forall e <- events :: Callable(e)
    ensures m.nvic == Run(c.n, ResetState(), events)
    decreases actions
  {
    hide GroupPriority, ExecutionPriority, StoredByte, Apply, Step;
    if actions == [] {
      events := [];
    } else {
      var a := actions[|actions| - 1];
      var before: Machine :|
        && Reached(c, actions[..|actions| - 1], before) && WellFormed(before)
        && Allowed(c, before, a) && m == Apply(c, before, a);
      events := ControllerOf(c, actions[..|actions| - 1], before);
      var event := ControllerEvent(c, before, a);
      if event.Some? {
        RunAppend(c.n, ResetState(), events, event.value);
        events := events + [event.value];
      }
    }
  }

  // ----- what is taken was enabled and pending -----

  /** The last of the actions that enable or disable the line enabled it; likewise for pending. */
  ghost predicate LastEnabled(actions: seq<Action>, irq: int) {
    exists j :: 0 <= j < |actions| && actions[j] == Call(Enable(irq))
                && forall k | j < k < |actions| :: actions[k] != Call(Disable(irq))
  }

  ghost predicate LastPending(actions: seq<Action>, irq: int) {
    exists j :: 0 <= j < |actions| && actions[j] in {Call(SetPending(irq)), LineRaised(irq)}
                && forall k | j < k < |actions| ::
                     actions[k] != Call(ClearPending(irq)) && !(actions[k].Preempt? && actions[k].irq == irq)
  }

  /** In every reached machine a line is enabled, or pending, exactly when the last action on that was
      to enable, or to raise or pend it. */
  lemma {:induction false} ReachedLine(c: Setup, actions: seq<Action>, m: Machine, irq: int)
    requires c.Valid() && Reached(c, actions, m) && ExternalLine(irq)
    ensures irq in m.nvic.enabled <==> LastEnabled(actions, irq)
    ensures irq in m.nvic.pending <==> LastPending(actions, irq)
    decreases actions
  {
    hide GroupPriority, ExecutionPriority, StoredByte, LastEnabled, LastPending, Step;
    if actions == [] {
      NothingBefore(irq);
    } else {
      var last := |actions| - 1;
      var before: Machine :|
        && Reached(c, actions[..last], before) && WellFormed(before)
        && Allowed(c, before, actions[last]) && m == Apply(c, before, actions[last]);
      LineStep(c, before, actions[last], irq);
      hide *;
      ReachedLine(c, actions[..last], before, irq);
      assert actions == actions[..last] + [actions[last]];
      OneMore(actions[..last], actions[last], irq);
    }
  }

  lemma LineStep(c: Setup, m: Machine, a: Action, irq: int)
    requires c.Valid() && WellFormed(m) && Allowed(c, m, a) && ExternalLine(irq)
    ensures var m' := Apply(c, m, a);
            && (irq in m'.nvic.enabled
                <==> a == Call(Enable(irq)) || (a != Call(Disable(irq)) && irq in m.nvic.enabled))
            && (irq in m'.nvic.pending
                <==> || a in {Call(SetPending(irq)), LineRaised(irq)}
                     || (a != Call(ClearPending(irq)) && !(a.Preempt? && a.irq == irq) && irq in m.nvic.pending))
  {
    hide GroupPriority, ExecutionPriority, StoredByte;
  }

  lemma NothingBefore(irq: int)
    ensures !LastEnabled([], irq) && !LastPending([], irq)
  {
  }

  lemma OneMore(actions: seq<Action>, a: Action, irq: int)
    ensures LastEnabled(actions + [a], irq)
            <==> a == Call(Enable(irq)) || (a != Call(Disable(irq)) && LastEnabled(actions, irq))
    ensures LastPending(actions + [a], irq)
            <==> || a in {Call(SetPending(irq)), LineRaised(irq)}
                 || (a != Call(ClearPending(irq)) && !(a.Preempt? && a.irq == irq) && LastPending(actions, irq))
  {
    var all, last := actions + [a], |actions|;
    assert all[last] == a && forall k | 0 <= k < last :: all[k] == actions[k];
    if LastEnabled(actions, irq) && a != Call(Disable(irq)) {
      var j :| 0 <= j < |actions| && actions[j] == Call(Enable(irq))
               && forall k | j < k < |actions| :: actions[k] != Call(Disable(irq));
      assert all[j] == Call(Enable(irq));
    }
    if LastPending(actions, irq) && a != Call(ClearPending(irq)) && !(a.Preempt? && a.irq == irq) {
      var j :| 0 <= j < |actions| && actions[j] in {Call(SetPending(irq)), LineRaised(irq)}
               && forall k | j < k < |actions| ::
                    actions[k] != Call(ClearPending(irq)) && !(actions[k].Preempt? && actions[k].irq == irq);
      assert all[j] in {Call(SetPending(irq)), LineRaised(irq)};
    }
  }

  /** Every machine passed on the way was reached by the actions so far. */
  lemma {:induction false} Passed(c: Setup, actions: seq<Action>, m: Machine, k: nat) returns (before: Machine)
    requires c.Valid() && Reached(c, actions, m) && k < |actions|
    ensures Reached(c, actions[..k], before) && WellFormed(before) && Allowed(c, before, actions[k])
    decreases actions
  {
    hide GroupPriority, ExecutionPriority, Step, StoredByte;
    var last := |actions| - 1;
    before :|
      && Reached(c, actions[..last], before) && WellFormed(before)
      && Allowed(c, before, actions[last]) && m == Apply(c, before, actions[last]);
    if k < last {
      before := Passed(c, actions[..last], before, k);
      assert actions[..last][..k] == actions[..k];
    }
  }

  /** In every run a line is taken only if it was enabled and never disabled since, and raised or
      pended and neither cleared nor taken since. */
  lemma TakenWasEnabledAndPending(c: Setup, actions: seq<Action>, m: Machine, k: nat)
    requires c.Valid() && Reached(c, actions, m) && k < |actions| && actions[k].Preempt? && actions[k].irq >= 0
    ensures LastEnabled(actions[..k], actions[k].irq) && LastPending(actions[..k], actions[k].irq)
  {
    hide GroupPriority, ExecutionPriority, LastEnabled, LastPending, Reached;
    var before := Passed(c, actions, m, k);
    ReachedLine(c, actions[..k], before, actions[k].irq);
  }

  datatype Option<T> = None | Some(value: T)

  /** What an action means for the controller, if anything. */
  lemma ControllerEvent(c: Setup, m: Machine, a: Action) returns (e: Option<Event>)
    requires c.Valid() && WellFormed(m) && Allowed(c, m, a)
    ensures e.Some? ==> Callable(e.value) && Apply(c, m, a).nvic == Step(c.n, m.nvic, e.value)
    ensures e.None? ==> Apply(c, m, a).nvic == m.nvic
  {
    e := match a
      case Call(e) => Some(e)
      case LineRaised(irq) => Some(Raise(irq))
      case Preempt(irq, _) => if irq >= 0 then Some(Enter(irq)) else None
      case Return => var top := m.stack[|m.stack| - 1]; if top >= 0 then Some(Leave(top)) else None;
    assert a.Return? ==> m.stack[|m.stack| - 1] in m.stack;
  }

  // ----- the bound is attained -----

  lemma Extend(c: Setup, actions: seq<Action>, m: Machine, a: Action)
    requires c.Valid() && Reached(c, actions, m) && WellFormed(m) && Allowed(c, m, a)
    ensures Reached(c, actions + [a], Apply(c, m, a))
  {
    assert (actions + [a])[..|actions + [a]| - 1] == actions;
  }

  /** The lines 0..k-1 active, nested in this order. */
  ghost predicate NestedLines(c: Setup, m: Machine, k: nat)
    requires c.Valid()
  {
    && WellFormed(m) && Stored(c, m)
    && |m.stack| == k
    && (forall i | 0 <= i < k :: m.stack[i] == i)
  }

  lemma NotNested(c: Setup) returns (actions: seq<Action>, m: Machine)
    requires c.Valid()
    ensures Reached(c, actions, m) && NestedLines(c, m, 0)
  {
    actions, m := [], Machine(ResetState(), []);
    InitialInvariant(c);
  }

  /** Sets the priority of line k, enables and raises it, and takes its exception. */
  lemma TakeLine(c: Setup, actions: seq<Action>, m: Machine, k: nat, value: u32)
    returns (actions': seq<Action>, m': Machine)
    requires c.Valid() && Reached(c, actions, m) && NestedLines(c, m, k) && k < LINES
    requires forall i | 0 <= i < k :: Level(c, StoredByte(c.n, value)) < Level(c, m.nvic.priority[i])
    ensures Reached(c, actions', m') && NestedLines(c, m', k + 1)
    ensures m'.nvic.priority == m.nvic.priority[(k as int) := StoredByte(c.n, value)]
  {
    hide GroupPriority, Level, Doubled, Halved, PreemptPriorityBits, Pow2, StoredByte, Reached, ExecutionPriority;
    StoredLevel(c, value);
    var set0 := Call(SetPriority(k, value));
    var m1 := Apply(c, m, set0);
    Extend(c, actions, m, set0);
    var m2 := Apply(c, m1, Call(Enable(k)));
    Extend(c, actions + [set0], m1, Call(Enable(k)));
    var m3 := Apply(c, m2, LineRaised(k));
    Extend(c, actions + [set0] + [Call(Enable(k))], m2, LineRaised(k));
    PreemptsIff(c, m3.nvic.priority, m3.stack, m3.nvic.priority[k as int]);
    Extend(c, actions + [set0] + [Call(Enable(k))] + [LineRaised(k)], m3, Preempt(k, 256));
    actions' := actions + [set0] + [Call(Enable(k))] + [LineRaised(k)] + [Preempt(k, 256)];
    m' := Apply(c, m3, Preempt(k, 256));
  }

  /** Some run reaches every depth up to the bound. */
  lemma {:induction false} NestTo(c: Setup, k: nat) returns (actions: seq<Action>, m: Machine)
    requires c.Valid() && k <= Pow2(c.PreemptBits()) && k <= LINES
    ensures Reached(c, actions, m) && NestedLines(c, m, k)
    ensures forall i | 0 <= i < k :: Level(c, m.nvic.priority[i]) == Pow2(c.PreemptBits()) - 1 - i
  {
    hide GroupPriority, Level, Doubled, Halved, PreemptPriorityBits, Pow2, StoredByte, EncodePriority,
         ExecutionPriority, Allowed, Apply, Reached;
    if k == 0 {
      actions, m := NotNested(c);
    } else {
      actions, m := NestTo(c, k - 1);
      var level := Pow2(c.PreemptBits()) - k;
      LevelFits(c);
      LevelOfSmall(c, level);
      actions, m := TakeLine(c, actions, m, k - 1, EncodePriority(c.n, c.group, level, 0));
    }
  }

  lemma LevelFits(c: Setup)
    requires c.Valid()
    ensures Pow2(c.PreemptBits()) <= 128
  {
    PointBounds(c);
    Pow2Monotone(c.PreemptBits(), 7);
    PowersOfTwo();
  }

  /** The bound is exact: for every number of implemented bits and every grouping some run nests
      2^PreemptPriorityBits handlers. */
  lemma BoundAttained(c: Setup) returns (actions: seq<Action>, m: Machine)
    requires c.Valid()
    ensures Reached(c, actions, m) && |m.stack| == Pow2(c.PreemptBits())
  {
    LevelFits(c);
    actions, m := NestTo(c, Pow2(c.PreemptBits()));
  }

  // ----- why priorities of active exceptions must not change -----

  /** With at least one preemption bit, a program that may lower the priority of active handlers
      nests as deep as there are lines, whatever the grouping. */
  lemma {:induction false} NestWithoutBound(c: Setup, k: nat) returns (actions: seq<Action>, m: Machine)
    requires c.Valid() && c.anytime && c.PreemptBits() >= 1 && k <= LINES
    ensures Reached(c, actions, m) && NestedLines(c, m, k)
    ensures forall i | 0 <= i < k :: Level(c, m.nvic.priority[i]) == 1
  {
    hide GroupPriority, Level, Doubled, Halved, PreemptPriorityBits, Pow2, StoredByte, EncodePriority,
         ExecutionPriority, Allowed, Apply, Reached;
    if k == 0 {
      actions, m := NotNested(c);
    } else {
      actions, m := NestWithoutBound(c, k - 1);
      LevelZeroAndOne(c);
      actions, m := TakeLine(c, actions, m, k - 1, EncodePriority(c.n, c.group, 0, 0));
      actions, m := LowerActive(c, actions, m, k, EncodePriority(c.n, c.group, 1, 0));
    }
  }

  /** Sets the priority of the innermost active line. */
  lemma LowerActive(c: Setup, actions: seq<Action>, m: Machine, k: nat, value: u32)
    returns (actions': seq<Action>, m': Machine)
    requires c.Valid() && c.anytime && Reached(c, actions, m) && NestedLines(c, m, k) && 1 <= k <= LINES
    ensures Reached(c, actions', m') && NestedLines(c, m', k)
    ensures m'.nvic.priority == m.nvic.priority[(k - 1) as int := StoredByte(c.n, value)]
  {
    hide GroupPriority, Level, Doubled, Halved, PreemptPriorityBits, Pow2, StoredByte, Reached, ExecutionPriority;
    var lower := Call(SetPriority(k - 1, value));
    StoredStep(c, m, lower);
    Extend(c, actions, m, lower);
    actions', m' := actions + [lower], Apply(c, m, lower);
  }

  lemma LevelZeroAndOne(c: Setup)
    requires c.Valid() && c.PreemptBits() >= 1
    ensures Level(c, StoredByte(c.n, EncodePriority(c.n, c.group, 0, 0))) == 0
    ensures Level(c, StoredByte(c.n, EncodePriority(c.n, c.group, 1, 0))) == 1
  {
    Pow2Monotone(1, c.PreemptBits());
    LevelOfSmall(c, 0);
    LevelOfSmall(c, 1);
  }

  /** The bound of `BoundedNesting` survives priority changes of active exceptions exactly when
      the grouping leaves no preemption bit. */
  lemma BoundNeedsInactiveLines(c: Setup)
    requires c.Valid() && c.anytime
    ensures (forall actions: seq<Action>, m: Machine | Reached(c, actions, m) ::
               |m.stack| <= Pow2(c.PreemptBits()))
            <==> c.PreemptBits() == 0
  {
    if c.PreemptBits() >= 1 {
      LevelFits(c);
      var actions, m := NestWithoutBound(c, LINES);
    } else {
      forall actions: seq<Action>, m: Machine | Reached(c, actions, m)
        ensures |m.stack| <= Pow2(c.PreemptBits())
      {
        NoPreemptionBits(c, actions, m);
      }
    }
  }

  lemma {:induction false} NoPreemptionBits(c: Setup, actions: seq<Action>, m: Machine)
    requires c.Valid() && c.PreemptBits() == 0 && Reached(c, actions, m)
    ensures WellFormed(m) && Stored(c, m) && |m.stack| <= 1
    decreases actions
  {
    if actions == [] {
      InitialInvariant(c);
    } else {
      var last := |actions| - 1;
      var before: Machine :|
        && Reached(c, actions[..last], before) && WellFormed(before)
        && Allowed(c, before, actions[last]) && m == Apply(c, before, actions[last]);
      NoPreemptionBits(c, actions[..last], before);
      StoredStep(c, before, actions[last]);
      ShallowStep(c, before, actions[last]);
    }
  }

  lemma ShallowStep(c: Setup, m: Machine, a: Action)
    requires c.Valid() && c.PreemptBits() == 0 && WellFormed(m) && Stored(c, m) && |m.stack| <= 1
    requires Allowed(c, m, a)
    ensures |Apply(c, m, a).stack| <= 1
  {
    hide GroupPriority, Level, Doubled, Halved, PreemptPriorityBits, StoredByte, ExecutionPriority;
    if a.Preempt? && m.stack != [] {
      assert Pow2(0) == 1;
      assert m.stack[0] in m.stack && Configurable(m.stack[0]);
      assert Level(c, m.nvic.priority[m.stack[0]]) == 0;
      PreemptsIff(c, m.nvic.priority, m.stack, m.nvic.priority[a.irq]);
    }
  }
}
