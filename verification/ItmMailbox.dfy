/**
  The debug mailbox ITM_RxBuffer: a program polling ITM_ReceiveChar against a debugger that
  stores characters.  The accesses of the two sides interleave one at a time.
*/
module ItmMailbox {

  type int32 = x: int | -0x8000_0000 <= x < 0x8000_0000

  /** ITM_RXBUFFER_EMPTY */
  const EMPTY: int32 := 0x5AA5_5AA5
  const NO_CHARACTER: int32 := -1

  /** Where the program is inside ITM_ReceiveChar. */
  datatype Receiver =
    | Idle
    | Found                 // the check saw a character
    | Taken(ch: int32)      // the character has been read, the buffer not yet marked empty

  /** Whether the debugger has seen the buffer empty since its last store. */
  datatype State = State(buffer: int32, receiver: Receiver, ready: bool)

  /** What an observer records: characters stored, and the results of completed receive calls with
      what their check saw. */
  datatype Call = Call(result: int32, emptyAtCheck: bool)
  datatype History = History(sent: seq<int32>, calls: seq<Call>)

  datatype Step =
    | Check                 // receiver: compare the buffer with EMPTY
    | Read                  // receiver: ch = ITM_RxBuffer
    | Clear                 // receiver: ITM_RxBuffer = EMPTY, return ch
    | Look                  // debugger: compare the buffer with EMPTY
    | Store(ch: int32)      // debugger: ITM_RxBuffer = ch

  predicate Enabled(s: State, step: Step) {
    match step
    case Check => s.receiver.Idle?
    case Read => s.receiver.Found?
    case Clear => s.receiver.Taken?
    case Look => true
    case Store(_) => s.ready
  }

  function Next(s: State, step: Step): State
    requires Enabled(s, step)
  {
    match step
    case Check => if s.buffer != EMPTY then s.(receiver := Found) else s
    case Read => s.(receiver := Taken(s.buffer))
    case Clear => s.(buffer := EMPTY, receiver := Idle)
    case Look => s.(ready := s.buffer == EMPTY)
    case Store(ch) => s.(buffer := ch, ready := false)
  }

  function Observe(s: State, h: History, step: Step): History
    requires Enabled(s, step)
  {
    match step
    case Check => if s.buffer == EMPTY then h.(calls := h.calls + [Call(NO_CHARACTER, true)]) else h
    case Clear => h.(calls := h.calls + [Call(s.receiver.ch, false)])
    case Store(ch) => h.(sent := h.sent + [ch])
    case _ => h
  }

  /** ITM_CheckChar */
  function CheckChar(s: State): int32 {
    if s.buffer == EMPTY then 0 else 1
  }

  predicate Schedule(s: State, steps: seq<Step>)
    decreases steps
  {
    steps == [] || (Enabled(s, steps[0]) && Schedule(Next(s, steps[0]), steps[1..]))
  }

  function Final(s: State, h: History, steps: seq<Step>): (State, History)
    requires Schedule(s, steps)
    decreases steps
  {
    if steps == [] then (s, h)
    else Final(Next(s, steps[0]), Observe(s, h, steps[0]), steps[1..])
  }

  /** The characters delivered by the calls that found one. */
  function Received(calls: seq<Call>): seq<int32> {
    if calls == [] then []
    else
      var last := calls[|calls| - 1];
      Received(calls[..|calls| - 1]) + if last.emptyAtCheck then [] else [last.result]
  }

  /** The character stored but not yet delivered. */
  function InFlight(s: State): seq<int32> {
    if s.buffer == EMPTY then [] else [s.buffer]
  }

  /** Storing the sentinel marks the buffer empty: the stores the mailbox can carry. */
  function Carried(sent: seq<int32>): seq<int32> {
    if sent == [] then []
    else
      var last := sent[|sent| - 1];
      Carried(sent[..|sent| - 1]) + if last == EMPTY then [] else [last]
  }

  predicate Invariant(s: State, h: History) {
    && (s.receiver.Found? || s.receiver.Taken? ==> s.buffer != EMPTY)
    && (s.receiver.Taken? ==> s.receiver.ch == s.buffer)
    && (s.ready ==> s.buffer == EMPTY)
    && Received(h.calls) + InFlight(s) == Carried(h.sent)
    && (forall c <- h.calls :: c.emptyAtCheck ==> c.result == NO_CHARACTER)
    && (forall c <- h.calls :: !c.emptyAtCheck ==> c.result in h.sent && c.result != EMPTY)
  }

  lemma InvariantStep(s: State, h: History, step: Step)
    requires Invariant(s, h) && Enabled(s, step)
    ensures Invariant(Next(s, step), Observe(s, h, step))
  {
    match step
    case Check => AfterCheck(s, h);
    case Clear => AfterClear(s, h);
    case Store(ch) => AfterStore(s, h, ch);
    case _ => hide Received, Carried;
  }

  lemma AfterCheck(s: State, h: History)
    requires Invariant(s, h) && Enabled(s, Check)
    ensures Invariant(Next(s, Check), Observe(s, h, Check))
  {
    hide Received, Carried;
    if s.buffer == EMPTY {
      ReceivedSnoc(h.calls, Call(NO_CHARACTER, true));
    }
  }

  lemma AfterClear(s: State, h: History)
    requires Invariant(s, h) && Enabled(s, Clear)
    ensures Invariant(Next(s, Clear), Observe(s, h, Clear))
  {
    hide Received, Carried;
    ReceivedSnoc(h.calls, Call(s.buffer, false));
    assert s.buffer in Carried(h.sent);
    CarriedWereSent(h.sent, s.buffer);
  }

  lemma AfterStore(s: State, h: History, ch: int32)
    requires Invariant(s, h) && Enabled(s, Store(ch))
    ensures Invariant(Next(s, Store(ch)), Observe(s, h, Store(ch)))
  {
    hide Received, Carried;
    CarriedSnoc(h.sent, ch);
  }

  lemma ReceivedSnoc(calls: seq<Call>, c: Call)
    ensures Received(calls + [c]) == Received(calls) + if c.emptyAtCheck then [] else [c.result]
  {
    assert (calls + [c])[..|calls|] == calls;
  }

  lemma CarriedSnoc(sent: seq<int32>, ch: int32)
    ensures Carried(sent + [ch]) == Carried(sent) + if ch == EMPTY then [] else [ch]
  {
    assert (sent + [ch])[..|sent|] == sent;
  }

  lemma {:induction false} CarriedWereSent(sent: seq<int32>, ch: int32)
    ensures ch in Carried(sent) ==> ch in sent
  {
    if sent != [] {
      var last := |sent| - 1;
      CarriedWereSent(sent[..last], ch);
      assert sent == sent[..last] + [sent[last]];
    }
  }

  lemma {:induction false} InvariantHolds(s: State, h: History, steps: seq<Step>)
    requires Invariant(s, h) && Schedule(s, steps)
    ensures var (s', h') := Final(s, h, steps); Invariant(s', h')
    decreases steps
  {
    if steps != [] {
      InvariantStep(s, h, steps[0]);
      InvariantHolds(Next(s, steps[0]), Observe(s, h, steps[0]), steps[1..]);
    }
  }

  const START := State(EMPTY, Idle, false)
  const NOTHING := History([], [])

  lemma {:induction false} CarriedAll(sent: seq<int32>)
    ensures |Carried(sent)| <= |sent|
    ensures Carried(sent) == sent <==> EMPTY !in sent
  {
    if sent != [] {
      var last := |sent| - 1;
      CarriedAll(sent[..last]);
      assert sent == sent[..last] + [sent[last]];
      if EMPTY !in sent[..last] && sent[last] == EMPTY {
        assert |Carried(sent)| < |sent|;
      } else if EMPTY in sent[..last] {
        CarriedShorter(sent[..last]);
      }
    }
  }

  lemma {:induction false} CarriedShorter(sent: seq<int32>)
    requires EMPTY in sent
    ensures |Carried(sent)| < |sent|
  {
    var last := |sent| - 1;
    assert sent == sent[..last] + [sent[last]];
    if EMPTY in sent[..last] {
      CarriedShorter(sent[..last]);
    } else {
      CarriedLength(sent[..last]);
    }
  }

  lemma {:induction false} CarriedLength(sent: seq<int32>)
    ensures |Carried(sent)| <= |sent|
  {
    if sent != [] {
      CarriedLength(sent[..|sent| - 1]);
    }
  }

  /** Delivery: under every interleaving the characters received, followed by the one in flight,
      are the characters sent, in order, without loss or duplicate, exactly when the debugger
      never sends the sentinel. */
  lemma Delivery(steps: seq<Step>)
    requires Schedule(START, steps)
    ensures var (s, h) := Final(START, NOTHING, steps);
            Received(h.calls) + InFlight(s) == h.sent <==> 0x5AA5_5AA5 !in h.sent
  {
    InvariantHolds(START, NOTHING, steps);
    var (s, h) := Final(START, NOTHING, steps);
    CarriedAll(h.sent);
  }

  /** Characters are bytes: sent as such, they are all delivered, in order. */
  lemma BytesAreDelivered(steps: seq<Step>)
    requires Schedule(START, steps)
    requires var (s, h) := Final(START, NOTHING, steps); forall ch <- h.sent :: 0 <= ch <= 255
    ensures var (s, h) := Final(START, NOTHING, steps);
            Received(h.calls) + InFlight(s) == h.sent
  {
    Delivery(steps);
  }

  /** A completed call returned -1 exactly when the buffer was empty at its check, unless the
      debugger sends -1 itself; and it never returns the sentinel. */
  lemma ResultMeaning(steps: seq<Step>)
    requires Schedule(START, steps)
    ensures var (s, h) := Final(START, NOTHING, steps);
            && (-1 !in h.sent ==>
                  forall c <- h.calls :: c.result == -1 <==> c.emptyAtCheck)
            && (forall c <- h.calls :: c.result != 0x5AA5_5AA5)
  {
    InvariantHolds(START, NOTHING, steps);
  }

  /** A full buffer stays as it is until the program empties it: whatever the debugger does, its
      stores are not enabled. */
  lemma {:induction false} FullBufferIsStable(s: State, h: History, debugger: seq<Step>)
    requires Invariant(s, h) && s.buffer != EMPTY && Schedule(s, debugger)
    requires forall d <- debugger :: d.Look? || d.Store?
    ensures Final(s, h, debugger) == (s.(ready := Final(s, h, debugger).0.ready), h)
    decreases debugger
  {
    if debugger != [] {
      assert debugger[0] in debugger;
      FullBufferIsStable(Next(s, debugger[0]), h, debugger[1..]);
    }
  }

  /** Between two receive calls, ITM_CheckChar reports 1 exactly when a character is waiting; the
      next call then delivers that character, whatever the debugger does before it. */
  lemma CheckPredictsReceive(steps: seq<Step>, debugger: seq<Step>)
    requires Schedule(START, steps)
    ensures var (s, h) := Final(START, NOTHING, steps);
            && (CheckChar(s) == 1 <==> InFlight(s) != [])
            && (s.receiver.Idle? && CheckChar(s) == 1 && Schedule(s, debugger)
                && (forall d <- debugger :: d.Look? || d.Store?) ==>
                  var (s', h') := Final(s, h, debugger);
                  && Schedule(s', [Check, Read, Clear])
                  && Final(s', h', [Check, Read, Clear]).1.calls == h.calls + [Call(InFlight(s)[0], false)])
  {
    InvariantHolds(START, NOTHING, steps);
    var (s, h) := Final(START, NOTHING, steps);
    if s.receiver.Idle? && s.buffer != EMPTY && Schedule(s, debugger)
       && (forall d <- debugger :: d.Look? || d.Store?) {
      FullBufferIsStable(s, h, debugger);
      ReceiveDelivers(Final(s, h, debugger).0, h);
    }
  }

  lemma ReceiveDelivers(s: State, h: History)
    requires s.receiver.Idle? && s.buffer != EMPTY
    ensures Schedule(s, [Check, Read, Clear])
    ensures Final(s, h, [Check, Read, Clear]).1.calls == h.calls + [Call(s.buffer, false)]
  {
    var s1 := Next(s, Check);
    var s2 := Next(s1, Read);
    assert [Check, Read, Clear][1..] == [Read, Clear] && [Read, Clear][1..] == [Clear] && [Clear][1..] == [];
    assert Schedule(s2, [Clear]) && Schedule(s1, [Read, Clear]);
  }
}
