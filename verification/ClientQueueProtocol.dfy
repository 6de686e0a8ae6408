/**
  The locking protocol of sockets/hw2/server queue/server.c: one producer (main), any number of
  consumers (handle_client), one mutex and two condition variables.

  A program counter names the action its thread takes next. Every access to the ring is a step of
  its own, so it is the mutex, not the granularity of the model, that keeps the ring consistent.
  A signal wakes at least one sleeper; sleepers may also wake on their own; a woken thread
  competes for the mutex with everyone else.
*/
module ClientQueueProtocol {
  import opened Common
  import opened Modular
  import opened ClientRing

  datatype Producer =
    | PAccept
    | PLock(socket: int)
    | PTest(socket: int)
    | PAsleep(socket: int)
    | PWoken(socket: int)
    | PWrite(socket: int)
    | PAdvance(socket: int)
    | PCount(socket: int)
    | PSignal
    | PUnlock

  datatype Consumer =
    | CLock
    | CTest(woken: bool)
    | CAsleep
    | CWoken
    | CRead
    | CAdvance(socket: int)
    | CCount(socket: int)
    | CSignal(socket: int, ticket: nat)
    | CUnlock(socket: int, ticket: nat)
    | CHandle(socket: int, ticket: nat)

  datatype Holder = Nobody | ByProducer | ByConsumer(i: nat)

  datatype Delivery = Delivery(worker: nat, socket: int)

  /** `accepted`, `added` and `removed` (and the tickets of the consumers) are history: they record
      the run and decide nothing. */
  datatype State = State(
    ring: Ring,
    mutex: Holder,
    producer: Producer,
    consumers: seq<Consumer>,
    accepted: seq<int>,
    added: seq<int>,
    removed: seq<Delivery>)

  datatype Action =
    | Accept(socket: int)
    | AcceptFails
    | Produce(wake: set<nat>)
    | WakeProducer
    | Consume(i: nat)
    | WakeConsumer(i: nat)

  function Init(size: nat, workers: nat): State
    requires size > 0
  {
    State(Ring(seq(size, _ => 0), 0, 0, 0), Nobody, PAccept, seq(workers, _ => CLock), [], [], [])
  }

  function Sleepers(cs: seq<Consumer>): set<nat> {
    set i: nat | i < |cs| && cs[i].CAsleep?
  }

  function Wake(cs: seq<Consumer>, wake: set<nat>): (r: seq<Consumer>)
    ensures |r| == |cs|
    ensures forall i :: 0 <= i < |cs| ==> r[i] == if i in wake then CWoken else cs[i]
  {
    seq(|cs|, i requires 0 <= i < |cs| => if i in wake then CWoken else cs[i])
  }

  function ProducerStep(s: State, wake: set<nat>): Option<State>
    requires |s.ring.slots| > 0 && s.ring.rear < |s.ring.slots|
  {
    match s.producer
    case PAccept => None
    case PLock(x) =>
      if s.mutex.Nobody? then Some(s.(producer := PTest(x), mutex := ByProducer)) else None
    case PTest(x) =>
      if s.ring.count == |s.ring.slots| then Some(s.(producer := PAsleep(x), mutex := Nobody))
      else Some(s.(producer := PWrite(x)))
    case PAsleep(x) => None
    case PWoken(x) =>
      if s.mutex.Nobody? then Some(s.(producer := PTest(x), mutex := ByProducer)) else None
    case PWrite(x) => Some(s.(producer := PAdvance(x), ring := WriteSlot(s.ring, x)))
    case PAdvance(x) => Some(s.(producer := PCount(x), ring := AdvanceRear(s.ring)))
    case PCount(x) =>
      Some(s.(producer := PSignal, ring := IncrementCount(s.ring), added := s.added + [x]))
    case PSignal =>
      if wake <= Sleepers(s.consumers) && (wake == {} ==> Sleepers(s.consumers) == {})
      then Some(s.(producer := PUnlock, consumers := Wake(s.consumers, wake)))
      else None
    case PUnlock => Some(s.(producer := PAccept, mutex := Nobody))
  }

  function ConsumerStep(s: State, i: nat): Option<State>
    requires i < |s.consumers|
    requires |s.ring.slots| > 0 && s.ring.front < |s.ring.slots|
  {
    match s.consumers[i]
    case CLock =>
      if s.mutex.Nobody? then Some(Move(s, i, CTest(false)).(mutex := ByConsumer(i))) else None
    case CTest(_) =>
      if s.ring.count == 0 then Some(Move(s, i, CAsleep).(mutex := Nobody))
      else Some(Move(s, i, CRead))
    case CAsleep => None
    case CWoken =>
      if s.mutex.Nobody? then Some(Move(s, i, CTest(true)).(mutex := ByConsumer(i))) else None
    case CRead => Some(Move(s, i, CAdvance(s.ring.slots[s.ring.front])))
    case CAdvance(x) => Some(Move(s, i, CCount(x)).(ring := AdvanceFront(s.ring)))
    case CCount(x) =>
      if s.ring.count == 0 then None
      else Some(Move(s, i, CSignal(x, |s.removed|)).(
                ring := DecrementCount(s.ring), removed := s.removed + [Delivery(i, x)]))
    case CSignal(x, k) =>
      var s' := Move(s, i, CUnlock(x, k));
      Some(if s.producer.PAsleep? then s'.(producer := PWoken(s.producer.socket)) else s')
    case CUnlock(x, k) => Some(Move(s, i, CHandle(x, k)).(mutex := Nobody))
    case CHandle(_, _) => Some(Move(s, i, CLock))
  }

  function Move(s: State, i: nat, c: Consumer): State
    requires i < |s.consumers|
  {
    s.(consumers := s.consumers[i := c])
  }

  function Next(s: State, a: Action): Option<State> {
    if |s.ring.slots| == 0 || s.ring.front >= |s.ring.slots| || s.ring.rear >= |s.ring.slots| then None
    else
      match a
      case Accept(x) =>
        if s.producer.PAccept? then Some(s.(producer := PLock(x), accepted := s.accepted + [x])) else None
      case AcceptFails => if s.producer.PAccept? then Some(s) else None
      case Produce(wake) => ProducerStep(s, wake)
      case WakeProducer =>
        if s.producer.PAsleep? then Some(s.(producer := PWoken(s.producer.socket))) else None
      case Consume(i) => if i < |s.consumers| then ConsumerStep(s, i) else None
      case WakeConsumer(i) =>
        if i < |s.consumers| && s.consumers[i].CAsleep? then Some(Move(s, i, CWoken)) else None
  }

  /** The state a schedule leads to, None if some action of it is not possible in its turn. */
  function Run(s: State, schedule: seq<Action>): Option<State>
    decreases |schedule|
  {
    if schedule == [] then Some(s)
    else
      var next := Next(s, schedule[0]);
      if next.None? then None else Run(next.value, schedule[1..])
  }

  // ----- The invariant -----

  predicate ProducerHolds(p: Producer) {
    p.PTest? || p.PWrite? || p.PAdvance? || p.PCount? || p.PSignal? || p.PUnlock?
  }

  predicate ConsumerHolds(c: Consumer) {
    c.CTest? || c.CRead? || c.CAdvance? || c.CCount? || c.CSignal? || c.CUnlock?
  }

  /** Exactly the thread inside its critical section holds the mutex. */
  ghost predicate MutexInv(s: State) {
    && (s.mutex.ByProducer? <==> ProducerHolds(s.producer))
    && (s.mutex.ByConsumer? ==> s.mutex.i < |s.consumers|)
    && (forall i :: 0 <= i < |s.consumers| ==>
          (ConsumerHolds(s.consumers[i]) <==> s.mutex == ByConsumer(i)))
  }

  /** The consumer holding the mutex, or a neutral one when there is none. */
  ghost function Inside(s: State): Consumer {
    if s.mutex.ByConsumer? && s.mutex.i < |s.consumers| then s.consumers[s.mutex.i] else CLock
  }

  /** The entries not yet taken out sit at the slots their position in the history gives. */
  ghost predicate Stored(s: State)
    requires |s.ring.slots| > 0
  {
    forall k :: |s.removed| <= k < |s.added| ==> s.ring.slots[k % |s.ring.slots|] == s.added[k]
  }

  /** The ring holds the added entries not yet removed; a thread in its critical section may be
      one write ahead of the history. */
  ghost predicate RingInv(s: State) {
    var n, r, a := |s.ring.slots|, |s.removed|, |s.added|;
    && n > 0
    && r <= a
    && s.ring.count == a - r <= n
    && s.ring.front == (if Inside(s).CCount? then r + 1 else r) % n
    && s.ring.rear == (if s.producer.PCount? then a + 1 else a) % n
    && Stored(s)
    && (forall k :: 0 <= k < r ==> s.removed[k].socket == s.added[k])
    && (s.producer.PWrite? || s.producer.PAdvance? || s.producer.PCount? ==> a - r < n)
    && (s.producer.PAdvance? || s.producer.PCount? ==> s.ring.slots[a % n] == s.producer.socket)
    && (Inside(s).CRead? || Inside(s).CAdvance? || Inside(s).CCount? ==> r < a)
    && (Inside(s).CAdvance? || Inside(s).CCount? ==> Inside(s).socket == s.added[r])
  }

  /** Accepted sockets are those added and the one the producer still carries. */
  ghost predicate AcceptInv(s: State) {
    s.accepted == s.added + match s.producer {
      case PAccept | PSignal | PUnlock => []
      case PLock(x) => [x]
      case PTest(x) => [x]
      case PAsleep(x) => [x]
      case PWoken(x) => [x]
      case PWrite(x) => [x]
      case PAdvance(x) => [x]
      case PCount(x) => [x]
    }
  }

  predicate Working(c: Consumer) {
    c.CSignal? || c.CUnlock? || c.CHandle?
  }

  /** A consumer at work holds the delivery its ticket names. */
  ghost predicate TicketInv(s: State) {
    forall i :: 0 <= i < |s.consumers| && Working(s.consumers[i]) ==>
      && s.consumers[i].ticket < |s.removed|
      && s.removed[s.consumers[i].ticket] == Delivery(i, s.consumers[i].socket)
  }

  predicate IsRising(c: Consumer) {
    c.CWoken? || c == CTest(true)
  }

  /** The consumers woken up that have not tested the count again. */
  ghost function Rising(cs: seq<Consumer>): set<nat> {
    set i: nat | i < |cs| && (IsRising(cs[i]))
  }

  /** No wake-up is lost. While a consumer sleeps, each stored entry is covered by a woken consumer,
      a signal about to be sent, or a consumer about to take one. While the producer sleeps the
      ring is full, or a signal for it is about to be sent. */
  ghost predicate WakeInv(s: State) {
    && (Sleepers(s.consumers) != {} ==>
          s.ring.count <= |Rising(s.consumers)|
                          + (if s.producer.PSignal? then 1 else 0)
                          + (if Inside(s).CRead? || Inside(s).CAdvance? || Inside(s).CCount? then 1 else 0))
    && (s.producer.PAsleep? ==>
          || s.ring.count == |s.ring.slots|
          || (s.ring.count == |s.ring.slots| - 1 && Inside(s).CSignal?))
  }

  ghost predicate Inv(s: State) {
    MutexInv(s) && RingInv(s) && AcceptInv(s) && TicketInv(s) && WakeInv(s)
  }

  lemma InitInv(size: nat, workers: nat)
    requires size > 0
    ensures Inv(Init(size, workers))
  {
    SmallMod(0, size);
  }

  // ----- Preservation, one conjunct at a time -----

  lemma ProducerKeepsMutex(s: State, wake: set<nat>)
    requires MutexInv(s) && |s.ring.slots| > 0 && s.ring.rear < |s.ring.slots| && ProducerStep(s, wake).Some?
    ensures MutexInv(ProducerStep(s, wake).value)
  {
  }

  lemma ConsumerKeepsMutex(s: State, i: nat)
    requires MutexInv(s) && i < |s.consumers| && |s.ring.slots| > 0 && s.ring.front < |s.ring.slots|
    requires ConsumerStep(s, i).Some?
    ensures MutexInv(ConsumerStep(s, i).value)
  {
  }

  lemma MutexStep(s: State, a: Action)
    requires MutexInv(s) && Next(s, a).Some?
    ensures MutexInv(Next(s, a).value)
  {
    match a
    case Produce(wake) => ProducerKeepsMutex(s, wake);
    case Consume(i) => ConsumerKeepsMutex(s, i);
    case _ =>
  }

  lemma ProducerKeepsTickets(s: State, wake: set<nat>)
    requires TicketInv(s) && |s.ring.slots| > 0 && s.ring.rear < |s.ring.slots| && ProducerStep(s, wake).Some?
    ensures TicketInv(ProducerStep(s, wake).value)
  {
  }

  lemma ConsumerKeepsTickets(s: State, i: nat)
    requires TicketInv(s) && i < |s.consumers| && |s.ring.slots| > 0 && s.ring.front < |s.ring.slots|
    requires ConsumerStep(s, i).Some?
    ensures TicketInv(ConsumerStep(s, i).value)
  {
  }

  lemma TicketStep(s: State, a: Action)
    requires TicketInv(s) && Next(s, a).Some?
    ensures TicketInv(Next(s, a).value)
  {
    match a
    case Produce(wake) => ProducerKeepsTickets(s, wake);
    case Consume(i) => ConsumerKeepsTickets(s, i);
    case _ =>
  }

  lemma AcceptStep(s: State, a: Action)
    requires AcceptInv(s) && Next(s, a).Some?
    ensures AcceptInv(Next(s, a).value)
  {
  }

  /** Writing the free slot leaves every stored entry alone. */
  lemma WriteKeepsStored(s: State, x: int)
    requires |s.ring.slots| > 0 && |s.removed| <= |s.added| < |s.removed| + |s.ring.slots|
    requires Stored(s) && s.ring.rear == |s.added| % |s.ring.slots|
    ensures Stored(s.(ring := WriteSlot(s.ring, x), producer := PAdvance(x)))
  {
    forall k | |s.removed| <= k < |s.added|
      ensures k % |s.ring.slots| != |s.added| % |s.ring.slots|
    {
      DistinctWraps(k, |s.added|, |s.ring.slots|);
    }
  }

  lemma ProducerKeepsRing(s: State, wake: set<nat>)
    requires MutexInv(s) && RingInv(s) && s.ring.rear < |s.ring.slots|
    requires ProducerStep(s, wake).Some?
    ensures RingInv(ProducerStep(s, wake).value)
  {
    match s.producer
    case PWrite(x) => WriteKeepsStored(s, x);
    case PAdvance(x) => WrapSum(|s.added|, 1, |s.ring.slots|);
    case _ =>
  }

  lemma ConsumerKeepsRing(s: State, i: nat)
    requires MutexInv(s) && RingInv(s) && i < |s.consumers| && s.ring.front < |s.ring.slots|
    requires ConsumerStep(s, i).Some?
    ensures RingInv(ConsumerStep(s, i).value)
  {
    match s.consumers[i]
    case CAdvance(x) => WrapSum(|s.removed|, 1, |s.ring.slots|);
    case _ =>
  }

  lemma RingStep(s: State, a: Action)
    requires MutexInv(s) && RingInv(s) && Next(s, a).Some?
    ensures RingInv(Next(s, a).value)
  {
    match a
    case Produce(wake) => ProducerKeepsRing(s, wake);
    case Consume(i) => ConsumerKeepsRing(s, i);
    case _ =>
  }

  lemma InsertSize(xs: set<nat>, i: nat)
    ensures |xs + {i}| == |xs| + (if i in xs then 0 else 1)
    ensures |xs - {i}| == |xs| - (if i in xs then 1 else 0)
  {
    assert i in xs ==> xs + {i} == xs;
    assert i !in xs ==> xs - {i} == xs;
    assert (xs - {i}) + {i} == xs + {i};
  }

  /** How one consumer's move changes the two sets the wake-up invariant speaks of. */
  lemma UpdateSleepers(cs: seq<Consumer>, i: nat, c: Consumer)
    requires i < |cs|
    ensures Sleepers(cs[i := c]) == if c.CAsleep? then Sleepers(cs) + {i} else Sleepers(cs) - {i}
  {
  }

  lemma UpdateRising(cs: seq<Consumer>, i: nat, c: Consumer)
    requires i < |cs|
    ensures |Rising(cs[i := c])| ==
            |Rising(cs)| - (if IsRising(cs[i]) then 1 else 0) + (if IsRising(c) then 1 else 0)
  {
    InsertSize(Rising(cs), i);
    if IsRising(c) {
      assert Rising(cs[i := c]) == Rising(cs) + {i};
    } else {
      assert Rising(cs[i := c]) == Rising(cs) - {i};
    }
  }

  lemma WakeSets(cs: seq<Consumer>, wake: set<nat>)
    requires wake <= Sleepers(cs)
    ensures Sleepers(Wake(cs, wake)) == Sleepers(cs) - wake
    ensures Rising(Wake(cs, wake)) == Rising(cs) + wake
    ensures Rising(cs) !! wake
  {
  }

  lemma ProducerKeepsWake(s: State, wake: set<nat>)
    requires MutexInv(s) && RingInv(s) && WakeInv(s) && s.ring.rear < |s.ring.slots|
    requires ProducerStep(s, wake).Some?
    ensures WakeInv(ProducerStep(s, wake).value)
  {
    if s.producer.PSignal? {
      WakeSets(s.consumers, wake);
      assert |Rising(s.consumers) + wake| == |Rising(s.consumers)| + |wake|;
      if wake != {} {
        assert |wake| >= 1;
      }
    }
  }

  /** A consumer's own step changes the sleepers and the rising consumers by itself at most. */
  lemma ConsumerStepSets(s: State, i: nat)
    requires i < |s.consumers| && |s.ring.slots| > 0 && s.ring.front < |s.ring.slots|
    requires ConsumerStep(s, i).Some?
    ensures var cs, cs' := s.consumers, ConsumerStep(s, i).value.consumers;
            && (cs[i] == CTest(true) ==> |Rising(cs')| == |Rising(cs)| - 1)
            && (cs[i] != CTest(true) ==> |Rising(cs')| == |Rising(cs)|)
            && (!cs[i].CTest? ==> Sleepers(cs') == Sleepers(cs))
            && (cs[i].CTest? && s.ring.count > 0 ==> Sleepers(cs') == Sleepers(cs))
  {
    var c := ConsumerStep(s, i).value.consumers[i];
    UpdateRising(s.consumers, i, c);
    UpdateSleepers(s.consumers, i, c);
  }

  lemma ConsumerKeepsWake(s: State, i: nat)
    requires MutexInv(s) && RingInv(s) && WakeInv(s) && i < |s.consumers| && s.ring.front < |s.ring.slots|
    requires ConsumerStep(s, i).Some?
    ensures WakeInv(ConsumerStep(s, i).value)
  {
    ConsumerStepSets(s, i);
  }

  lemma WakeStep(s: State, a: Action)
    requires MutexInv(s) && RingInv(s) && WakeInv(s) && Next(s, a).Some?
    ensures WakeInv(Next(s, a).value)
  {
    match a
    case Produce(wake) => ProducerKeepsWake(s, wake);
    case Consume(i) => ConsumerKeepsWake(s, i);
    case WakeConsumer(i) =>
      UpdateRising(s.consumers, i, CWoken);
      UpdateSleepers(s.consumers, i, CWoken);
    case _ =>
  }

  lemma InvStep(s: State, a: Action)
    requires Inv(s) && Next(s, a).Some?
    ensures Inv(Next(s, a).value)
  {
    MutexStep(s, a);
    RingStep(s, a);
    AcceptStep(s, a);
    TicketStep(s, a);
    WakeStep(s, a);
  }

  lemma {:induction false} RunKeepsInv(s: State, schedule: seq<Action>)
    requires Inv(s) && Run(s, schedule).Some?
    ensures Inv(Run(s, schedule).value)
    decreases |schedule|
  {
    if schedule != [] {
      InvStep(s, schedule[0]);
      RunKeepsInv(Next(s, schedule[0]).value, schedule[1..]);
    }
  }

  // ----- What every run guarantees -----

  lemma {:induction false} RunConcat(s: State, first: seq<Action>, second: seq<Action>)
    requires Run(s, first).Some?
    ensures Run(s, first + second) == Run(Run(s, first).value, second)
    decreases |first|
  {
    if first == [] {
      assert first + second == second;
    } else {
      assert (first + second)[1..] == first[1..] + second;
      RunConcat(Next(s, first[0]).value, first[1..], second);
    }
  }

  ghost predicate Reachable(size: nat, workers: nat, schedule: seq<Action>, s: State) {
    size > 0 && Run(Init(size, workers), schedule) == Some(s)
  }

  lemma ReachableInv(size: nat, workers: nat, schedule: seq<Action>, s: State)
    requires Reachable(size, workers, schedule, s)
    ensures Inv(s)
  {
    InitInv(size, workers);
    RunKeepsInv(Init(size, workers), schedule);
  }

  lemma StepKeepsShape(s: State, a: Action)
    requires Next(s, a).Some?
    ensures var s' := Next(s, a).value;
            && |s'.consumers| == |s.consumers| && |s'.ring.slots| == |s.ring.slots|
            && s.accepted <= s'.accepted && s.added <= s'.added && s.removed <= s'.removed
  {
  }

  lemma {:induction false} RunKeepsShape(s: State, schedule: seq<Action>)
    requires Run(s, schedule).Some?
    ensures var s' := Run(s, schedule).value;
            && |s'.consumers| == |s.consumers| && |s'.ring.slots| == |s.ring.slots|
            && s.accepted <= s'.accepted && s.added <= s'.added && s.removed <= s'.removed
    decreases |schedule|
  {
    if schedule != [] {
      StepKeepsShape(s, schedule[0]);
      RunKeepsShape(Next(s, schedule[0]).value, schedule[1..]);
    }
  }

  function Sockets(ds: seq<Delivery>): (xs: seq<int>)
    ensures |xs| == |ds|
  {
    seq(|ds|, k requires 0 <= k < |ds| => ds[k].socket)
  }

  /** Entry k of the ring sits where position |removed| + k of the history says. */
  lemma EntryInPlace(r: nat, k: nat, n: nat)
    requires n > 0
    ensures (r % n + k) % n == (r + k) % n
  {
    WrapSum(r, k, n);
  }

  lemma ContentsAreTail(s: State)
    requires RingInv(s) && s.mutex.Nobody? && MutexInv(s)
    ensures WellFormed(s.ring) && Contents(s.ring) == s.added[|s.removed|..]
  {
    var n, r, slots := |s.ring.slots|, |s.removed|, s.ring.slots;
    ModBound(r, n);
    EntryInPlace(r, s.ring.count, n);
    var tail := s.added[r..];
    forall k | 0 <= k < s.ring.count ensures Contents(s.ring)[k] == tail[k] {
      EntryInPlace(r, k, n);
      assert slots[(r + k) % n] == s.added[r + k];
    }
  }

  lemma ModBound(x: nat, n: nat)
    requires n > 0
    ensures 0 <= x % n < n
  {
  }

  /** FIFO refinement: with the mutex free, the ring is well formed and what was added is what was
      removed, in the same order, followed by what the ring holds. */
  lemma Fifo(size: nat, workers: nat, schedule: seq<Action>, s: State)
    requires Reachable(size, workers, schedule, s) && s.mutex.Nobody?
    ensures WellFormed(s.ring) && |s.ring.slots| == size
    ensures s.added == Sockets(s.removed) + Contents(s.ring)
  {
    ReachableInv(size, workers, schedule, s);
    RunKeepsShape(Init(size, workers), schedule);
    ContentsAreTail(s);
  }

  /** An entry at position k of the ring is the (k+1)-th to be removed from then on: no sooner,
      no later, whatever else happens in between. */
  lemma LeavesInTurn(size: nat, workers: nat, past: seq<Action>, s: State,
                     future: seq<Action>, s': State, k: nat)
    requires Reachable(size, workers, past, s) && s.mutex.Nobody?
    requires Run(s, future) == Some(s')
    requires k < s.ring.count
    ensures |s.ring.slots| > 0 && s.removed <= s'.removed
    ensures |s'.removed| > |s.removed| + k ==> s'.removed[|s.removed| + k].socket == Contents(s.ring)[k]
    ensures |s'.removed| <= |s.removed| + k && s'.mutex.Nobody? ==>
              |s'.ring.slots| > 0 && |s.removed| + k - |s'.removed| < s'.ring.count &&
              Contents(s'.ring)[|s.removed| + k - |s'.removed|] == Contents(s.ring)[k]
  {
    ReachableInv(size, workers, past, s);
    RunKeepsInv(s, future);
    RunKeepsShape(s, future);
    ContentsAreTail(s);
    if s'.mutex.Nobody? {
      ContentsAreTail(s');
    }
  }

  /** Two workers never serve the same delivery, and each serves a socket that was accepted. */
  lemma OneWorkerPerClient(size: nat, workers: nat, schedule: seq<Action>, s: State, i: nat, j: nat)
    requires Reachable(size, workers, schedule, s)
    requires i < |s.consumers| && j < |s.consumers| && i != j
    requires Working(s.consumers[i]) && Working(s.consumers[j])
    ensures s.consumers[i].ticket != s.consumers[j].ticket
    ensures s.consumers[i].ticket < |s.accepted| && s.accepted[s.consumers[i].ticket] == s.consumers[i].socket
  {
    ReachableInv(size, workers, schedule, s);
  }

  /** Only one thread is ever between lock and unlock. */
  lemma MutualExclusion(size: nat, workers: nat, schedule: seq<Action>, s: State, i: nat, j: nat)
    requires Reachable(size, workers, schedule, s)
    requires i < |s.consumers| && ConsumerHolds(s.consumers[i])
    ensures !ProducerHolds(s.producer)
    ensures j < |s.consumers| && ConsumerHolds(s.consumers[j]) ==> i == j
  {
    ReachableInv(size, workers, schedule, s);
  }

  /** No lost wake-up, for both condition variables: in every reachable state, and without the
      corrections for a signal under way once the mutex is free. */
  lemma NoLostWakeup(size: nat, workers: nat, schedule: seq<Action>, s: State)
    requires Reachable(size, workers, schedule, s)
    ensures var cs := s.consumers;
            var untested := set i: nat | i < |cs| && (cs[i].CWoken? || cs[i] == CTest(true));
            (exists i :: 0 <= i < |cs| && cs[i].CAsleep?) ==>
              && s.ring.count <= |untested|
                                 + (if s.producer.PSignal? then 1 else 0)
                                 + (if Inside(s).CRead? || Inside(s).CAdvance? || Inside(s).CCount? then 1 else 0)
              && (s.mutex.Nobody? ==> s.ring.count <= |untested|)
    ensures s.producer.PAsleep? ==> s.ring.count == size || (s.ring.count == size - 1 && Inside(s).CSignal?)
    ensures s.mutex.Nobody? && s.producer.PAsleep? ==> s.ring.count == size
  {
    ReachableInv(size, workers, schedule, s);
    RunKeepsShape(Init(size, workers), schedule);
    var cs := s.consumers;
    assert Rising(cs) == set i: nat | i < |cs| && (cs[i].CWoken? || cs[i] == CTest(true));
    if i :| 0 <= i < |cs| && cs[i].CAsleep? {
      assert i in Sleepers(cs);
    }
  }

  /** The producer and all consumers are never asleep together. */
  lemma NeverAllAsleep(size: nat, workers: nat, schedule: seq<Action>, s: State)
    requires Reachable(size, workers, schedule, s) && workers > 0
    requires s.producer.PAsleep?
    ensures exists i :: 0 <= i < |s.consumers| && !s.consumers[i].CAsleep?
  {
    ReachableInv(size, workers, schedule, s);
    RunKeepsShape(Init(size, workers), schedule);
    if forall i :: 0 <= i < |s.consumers| ==> s.consumers[i].CAsleep? {
      assert 0 in Sleepers(s.consumers);
      assert Rising(s.consumers) == {};
    }
  }

  /** Whoever holds the mutex has a next step; in particular nobody sleeps holding it. */
  lemma HolderCanMove(s: State)
    requires Inv(s)
    ensures s.ring.front < |s.ring.slots| && s.ring.rear < |s.ring.slots|
    ensures s.mutex.ByConsumer? ==> s.mutex.i < |s.consumers| && ConsumerStep(s, s.mutex.i).Some?
    ensures s.mutex.ByProducer? ==> ProducerStep(s, Sleepers(s.consumers)).Some?
  {
    ModBound(if Inside(s).CCount? then |s.removed| + 1 else |s.removed|, |s.ring.slots|);
    ModBound(if s.producer.PCount? then |s.added| + 1 else |s.added|, |s.ring.slots|);
  }

  predicate IsEnvironment(a: Action) {
    a.Accept? || a.AcceptFails? || a.WakeProducer? || a.WakeConsumer?
  }

  /** Nothing can happen except a new connection or a spontaneous wake-up. */
  ghost predicate Quiet(s: State) {
    forall a :: Next(s, a).Some? ==> IsEnvironment(a)
  }

  /** A state with no move left is an idle server: every accepted client has been handed to a
      worker in order of arrival, the ring is empty and everyone waits for connections. So no
      schedule, barging or spurious wake-up can leave the server stuck with work to do. */
  lemma QuietMeansIdle(size: nat, workers: nat, schedule: seq<Action>, s: State)
    requires Reachable(size, workers, schedule, s) && workers > 0 && Quiet(s)
    ensures s.producer.PAccept? && s.mutex.Nobody? && s.ring.count == 0
    ensures forall i :: 0 <= i < |s.consumers| ==> s.consumers[i].CAsleep?
    ensures Sockets(s.removed) == s.accepted
  {
    ReachableInv(size, workers, schedule, s);
    RunKeepsShape(Init(size, workers), schedule);
    HolderCanMove(s);
    assert Next(s, Produce(Sleepers(s.consumers))) == ProducerStep(s, Sleepers(s.consumers));
    assert ProducerStep(s, Sleepers(s.consumers)).None?;
    forall i: nat | i < |s.consumers| ensures ConsumerStep(s, i).None? {
      assert Next(s, Consume(i)) == ConsumerStep(s, i);
    }
    assert s.producer.PAsleep? || s.producer.PAccept?;
    forall i: nat | i < |s.consumers| ensures s.consumers[i].CAsleep? {
      assert ConsumerStep(s, i).None?;
    }
    assert 0 in Sleepers(s.consumers);
    assert Rising(s.consumers) == {};
  }

  /** Exactly when each action is possible: a thread is stopped only by the mutex or by sleep, and
      every sleeper may wake on its own at any time. */
  lemma EnabledExactly(size: nat, workers: nat, schedule: seq<Action>, s: State, i: nat, x: int)
    requires Reachable(size, workers, schedule, s) && i < |s.consumers|
    ensures Next(s, Consume(i)).Some? <==>
            !s.consumers[i].CAsleep? && (s.consumers[i].CLock? || s.consumers[i].CWoken? ==> s.mutex.Nobody?)
    ensures Next(s, WakeConsumer(i)).Some? <==> s.consumers[i].CAsleep?
    ensures Next(s, WakeProducer).Some? <==> s.producer.PAsleep?
    ensures Next(s, Accept(x)).Some? <==> s.producer.PAccept?
    ensures Next(s, AcceptFails) == if s.producer.PAccept? then Some(s) else None
    ensures (exists wake :: Next(s, Produce(wake)).Some?) <==>
            && !s.producer.PAccept? && !s.producer.PAsleep?
            && (s.producer.PLock? || s.producer.PWoken? ==> s.mutex.Nobody?)
  {
    ReachableInv(size, workers, schedule, s);
    HolderCanMove(s);
    assert Next(s, Produce(Sleepers(s.consumers))) == ProducerStep(s, Sleepers(s.consumers));
    assert s.mutex == ByConsumer(i) <==> ConsumerHolds(s.consumers[i]);
  }

  /** A signal wakes any one sleeper, or several. */
  lemma SignalWakesAny(size: nat, workers: nat, schedule: seq<Action>, s: State, wake: set<nat>)
    requires Reachable(size, workers, schedule, s) && s.producer.PSignal?
    requires wake != {} && forall i :: i in wake ==> i < |s.consumers| && s.consumers[i].CAsleep?
    ensures var s' := Next(s, Produce(wake));
            && s'.Some? && |s'.value.consumers| == |s.consumers|
            && forall i :: 0 <= i < |s.consumers| ==>
                 s'.value.consumers[i] == if i in wake then CWoken else s.consumers[i]
  {
    ReachableInv(size, workers, schedule, s);
    HolderCanMove(s);
  }

  // ----- Every client taken is handled -----

  /** Worker d.worker is reading from and answering the socket of delivery k. */
  ghost predicate Handles(s: State, d: Delivery, k: nat) {
    d.worker < |s.consumers| && s.consumers[d.worker] == CHandle(d.socket, k)
  }

  /** At some point of the schedule it was. */
  ghost predicate WasHandled(start: State, schedule: seq<Action>, d: Delivery, k: nat) {
    exists p: nat :: p <= |schedule| && Run(start, schedule[..p]).Some? && Handles(Run(start, schedule[..p]).value, d, k)
  }

  /** The worker has taken delivery k and is about to leave the critical section with it. */
  ghost predicate InHand(s: State, d: Delivery, k: nat) {
    && d.worker < |s.consumers|
    && (s.consumers[d.worker] == CSignal(d.socket, k) || s.consumers[d.worker] == CUnlock(d.socket, k))
  }

  lemma HandStep(s: State, a: Action, d: Delivery, k: nat)
    requires InHand(s, d, k) && Next(s, a).Some?
    ensures InHand(Next(s, a).value, d, k) || Handles(Next(s, a).value, d, k)
  {
  }

  lemma NewInHand(s: State, a: Action, k: nat)
    requires Next(s, a).Some? && |s.removed| <= k < |Next(s, a).value.removed|
    ensures InHand(Next(s, a).value, Next(s, a).value.removed[k], k)
  {
  }

  lemma LastStep(start: State, schedule: seq<Action>)
    requires schedule != [] && Run(start, schedule).Some?
    ensures var front, a := schedule[..|schedule| - 1], schedule[|schedule| - 1];
            && Run(start, front).Some?
            && Next(Run(start, front).value, a) == Run(start, schedule)
    decreases |schedule|
  {
    var front, a := schedule[..|schedule| - 1], schedule[|schedule| - 1];
    assert schedule == front + [a];
    if |schedule| > 1 {
      LastStep(Next(start, schedule[0]).value, schedule[1..]);
      assert schedule[1..][..|schedule| - 2] == front[1..];
    } else {
      assert Run(Next(start, a).value, schedule[1..]) == Next(start, a);
    }
  }

  lemma HandledBefore(start: State, schedule: seq<Action>, d: Delivery, k: nat)
    requires schedule != [] && WasHandled(start, schedule[..|schedule| - 1], d, k)
    ensures WasHandled(start, schedule, d, k)
  {
    var front := schedule[..|schedule| - 1];
    var p: nat :| p <= |front| && Run(start, front[..p]).Some? && Handles(Run(start, front[..p]).value, d, k);
    assert schedule[..p] == front[..p];
  }

  lemma HandledNow(start: State, schedule: seq<Action>, d: Delivery, k: nat)
    requires Run(start, schedule).Some? && Handles(Run(start, schedule).value, d, k)
    ensures WasHandled(start, schedule, d, k)
  {
    assert schedule[..|schedule|] == schedule;
  }

  /** No worker goes on to another entry before it has handled the one it took. */
  lemma {:induction false} TakenIsHandled(start: State, schedule: seq<Action>, k: nat)
    requires start.removed == [] && Run(start, schedule).Some? && k < |Run(start, schedule).value.removed|
    ensures var s := Run(start, schedule).value;
            InHand(s, s.removed[k], k) || WasHandled(start, schedule, s.removed[k], k)
    decreases |schedule|
  {
    if schedule != [] {
      var front, a := schedule[..|schedule| - 1], schedule[|schedule| - 1];
      LastStep(start, schedule);
      var before, s := Run(start, front).value, Run(start, schedule).value;
      StepKeepsShape(before, a);
      if k >= |before.removed| {
        NewInHand(before, a, k);
      } else {
        TakenIsHandled(start, front, k);
        if WasHandled(start, front, s.removed[k], k) {
          HandledBefore(start, schedule, s.removed[k], k);
        } else {
          HandStep(before, a, s.removed[k], k);
          if Handles(s, s.removed[k], k) {
            HandledNow(start, schedule, s.removed[k], k);
          }
        }
      }
    }
  }

  /** In every reachable state each client taken off the ring has been handled by the worker that took
      it, or that worker still holds it inside its critical section; in a quiet state, where no
      worker does, every accepted client has been handled. */
  lemma EveryTakenClientIsHandled(size: nat, workers: nat, schedule: seq<Action>, s: State, k: nat)
    requires Reachable(size, workers, schedule, s) && k < |s.removed|
    ensures InHand(s, s.removed[k], k) || WasHandled(Init(size, workers), schedule, s.removed[k], k)
    ensures Quiet(s) && workers > 0 ==> WasHandled(Init(size, workers), schedule, s.removed[k], k)
  {
    TakenIsHandled(Init(size, workers), schedule, k);
    if Quiet(s) && workers > 0 {
      QuietMeansIdle(size, workers, schedule, s);
    }
  }

  // ----- Bounded work -----

  /** Steps a consumer may still take before it has to sleep. One that has passed its test draws on
      the 10 units that the entry it is taking is worth. */
  function ConsumerWork(c: Consumer): int {
    match c
    case CAsleep => 0
    case CTest(_) => 1
    case CLock => 2
    case CWoken => 2
    case CRead => 0
    case CAdvance(_) => -1
    case CCount(_) => -2
    case CSignal(_, _) => 7
    case CUnlock(_, _) => 4
    case CHandle(_, _) => 3
  }

  function Works(cs: seq<Consumer>): seq<int> {
    seq(|cs|, i requires 0 <= i < |cs| => ConsumerWork(cs[i]))
  }

  /** Likewise for the producer; its signal may wake every worker. */
  function ProducerWork(p: Producer, workers: nat): int {
    match p
    case PAccept => 0
    case PUnlock => 1
    case PSignal => 2 + 2 * workers
    case PCount(_) => 13 + 2 * workers
    case PAdvance(_) => 14 + 2 * workers
    case PWrite(_) => 15 + 2 * workers
    case PAsleep(_) => 15 + 2 * workers
    case PTest(_) => 16 + 2 * workers
    case PLock(_) => 17 + 2 * workers
    case PWoken(_) => 17 + 2 * workers
  }

  function Work(s: State): int {
    ProducerWork(s.producer, |s.consumers|) + 10 * s.ring.count + Sum(Works(s.consumers))
  }

  /** The work an action of the environment adds. */
  function Added(a: Action, workers: nat): int {
    match a
    case Accept(_) => 17 + 2 * workers
    case AcceptFails => 0
    case WakeProducer => 2
    case WakeConsumer(_) => 2
    case Produce(_) => -1
    case Consume(_) => -1
  }

  lemma WorksUpdate(cs: seq<Consumer>, i: nat, c: Consumer)
    requires i < |cs|
    ensures Sum(Works(cs[i := c])) == Sum(Works(cs)) - ConsumerWork(cs[i]) + ConsumerWork(c)
  {
    assert Works(cs[i := c]) == Works(cs)[i := ConsumerWork(c)];
    SumUpdate(Works(cs), i, ConsumerWork(c));
  }

  lemma {:induction false} SumRaised(xs: seq<int>, ys: seq<int>)
    requires |xs| == |ys| && forall i :: 0 <= i < |xs| ==> ys[i] <= xs[i] + 2
    ensures Sum(ys) <= Sum(xs) + 2 * |xs|
  {
    if xs != [] {
      SumRaised(xs[1..], ys[1..]);
    }
  }

  lemma WakingAdds(cs: seq<Consumer>, wake: set<nat>)
    requires wake <= Sleepers(cs)
    ensures Sum(Works(Wake(cs, wake))) <= Sum(Works(cs)) + 2 * |cs|
  {
    SumRaised(Works(cs), Works(Wake(cs, wake)));
  }

  lemma ProducerWorks(s: State, wake: set<nat>)
    requires s.ring.rear < |s.ring.slots| && ProducerStep(s, wake).Some?
    ensures Work(ProducerStep(s, wake).value) <= Work(s) - 1
  {
    if s.producer.PSignal? {
      WakingAdds(s.consumers, wake);
    }
  }

  lemma ConsumerWorks(s: State, i: nat)
    requires i < |s.consumers| && s.ring.front < |s.ring.slots| && ConsumerStep(s, i).Some?
    ensures Work(ConsumerStep(s, i).value) <= Work(s) - 1
  {
    var s' := ConsumerStep(s, i).value;
    WorksUpdate(s.consumers, i, s'.consumers[i]);
  }

  lemma StepWorks(s: State, a: Action)
    requires Next(s, a).Some?
    ensures Work(Next(s, a).value) <= Work(s) + Added(a, |s.consumers|)
    ensures |Next(s, a).value.consumers| == |s.consumers|
  {
    match a
    case Produce(wake) => ProducerWorks(s, wake);
    case Consume(i) => ConsumerWorks(s, i);
    case WakeConsumer(i) => WorksUpdate(s.consumers, i, CWoken);
    case _ =>
  }

  function AddedBy(schedule: seq<Action>, workers: nat): int {
    if schedule == [] then 0 else Added(schedule[0], workers) + AddedBy(schedule[1..], workers)
  }

  lemma {:induction false} RunWorks(s: State, schedule: seq<Action>)
    requires Run(s, schedule).Some?
    ensures Work(Run(s, schedule).value) <= Work(s) + AddedBy(schedule, |s.consumers|)
    decreases |schedule|
  {
    if schedule != [] {
      StepWorks(s, schedule[0]);
      RunWorks(Next(s, schedule[0]).value, schedule[1..]);
    }
  }

  /** Only the consumer holding the mutex can be in debt, and then the ring holds its entry. */
  lemma WorkNonNegative(s: State)
    requires Inv(s)
    ensures Work(s) >= 0
  {
    if s.mutex.ByConsumer? {
      var i := s.mutex.i;
      WorksUpdate(s.consumers, i, CAsleep);
      SumNonNegative(Works(s.consumers[i := CAsleep]));
    } else {
      SumNonNegative(Works(s.consumers));
    }
  }

  function Connections(schedule: seq<Action>): nat {
    if schedule == [] then 0 else (if schedule[0].Accept? then 1 else 0) + Connections(schedule[1..])
  }

  function SpuriousWakeups(schedule: seq<Action>): nat {
    if schedule == [] then 0
    else (if schedule[0].WakeProducer? || schedule[0].WakeConsumer? then 1 else 0) + SpuriousWakeups(schedule[1..])
  }

  /** The steps of the program's own threads. */
  function OwnSteps(schedule: seq<Action>): nat {
    if schedule == [] then 0 else (if IsEnvironment(schedule[0]) then 0 else 1) + OwnSteps(schedule[1..])
  }

  function FailedAccepts(schedule: seq<Action>): nat {
    if schedule == [] then 0 else (if schedule[0].AcceptFails? then 1 else 0) + FailedAccepts(schedule[1..])
  }

  /** The four counts leave no action out. */
  lemma {:induction false} CountsAddUp(schedule: seq<Action>)
    ensures OwnSteps(schedule) + Connections(schedule) + SpuriousWakeups(schedule) + FailedAccepts(schedule) == |schedule|
  {
    if schedule != [] {
      CountsAddUp(schedule[1..]);
    }
  }

  lemma {:induction false} AddedByCounts(schedule: seq<Action>, workers: nat)
    ensures AddedBy(schedule, workers) ==
            (17 + 2 * workers) * Connections(schedule) + 2 * SpuriousWakeups(schedule) - OwnSteps(schedule)
  {
    if schedule != [] {
      AddedByCounts(schedule[1..], workers);
      OneMoreTimes(17 + 2 * workers, Connections(schedule[1..]));
    }
  }

  lemma OneMoreTimes(k: nat, n: nat)
    ensures k * (n + 1) == k * n + k
  {
  }

  lemma InitialWork(size: nat, workers: nat)
    requires size > 0
    ensures Work(Init(size, workers)) == 2 * workers
  {
    SumConstant(Works(Init(size, workers).consumers), 2);
  }

  /** No busy waiting: in every run the threads together take at most a fixed number of steps for
      each connection, two for each spurious wake-up, and two for each worker at the start. */
  lemma WorkIsBounded(size: nat, workers: nat, schedule: seq<Action>, s: State)
    requires Reachable(size, workers, schedule, s)
    ensures OwnSteps(schedule) <=
            2 * workers + (17 + 2 * workers) * Connections(schedule) + 2 * SpuriousWakeups(schedule)
    ensures OwnSteps(schedule) == |schedule| - Connections(schedule) - SpuriousWakeups(schedule) - FailedAccepts(schedule)
  {
    ReachableInv(size, workers, schedule, s);
    InitialWork(size, workers);
    RunWorks(Init(size, workers), schedule);
    AddedByCounts(schedule, workers);
    CountsAddUp(schedule);
    WorkNonNegative(s);
  }

  lemma {:induction false} OwnRunWorks(s: State, future: seq<Action>)
    requires Inv(s) && Run(s, future).Some? && forall k :: 0 <= k < |future| ==> !IsEnvironment(future[k])
    ensures |future| <= Work(s)
    decreases |future|
  {
    if future == [] {
      WorkNonNegative(s);
    } else {
      StepWorks(s, future[0]);
      InvStep(s, future[0]);
      OwnRunWorks(Next(s, future[0]).value, future[1..]);
    }
  }

  /** Every accepted client is served once the clients being served end: left without connections
      and spurious wake-ups, the threads can only go on for a bounded number of steps, and where
      they can go no further every accepted socket has been handed out, in order, and handled by the
      worker it was handed to. */
  lemma EveryClientIsServed(size: nat, workers: nat, past: seq<Action>, s: State, future: seq<Action>)
    requires Reachable(size, workers, past, s) && workers > 0
    requires Run(s, future).Some? && forall k :: 0 <= k < |future| ==> !IsEnvironment(future[k])
    ensures |future| <= Work(s)
    ensures var end := Run(s, future).value;
            Quiet(end) ==>
              && Sockets(end.removed) == s.accepted
              && forall k :: 0 <= k < |end.removed| ==>
                   WasHandled(Init(size, workers), past + future, end.removed[k], k)
  {
    ReachableInv(size, workers, past, s);
    OwnRunWorks(s, future);
    RunConcat(Init(size, workers), past, future);
    OwnRunAcceptsNothing(s, future);
    var end := Run(s, future).value;
    if Quiet(end) {
      QuietMeansIdle(size, workers, past + future, end);
      forall k | 0 <= k < |end.removed| ensures WasHandled(Init(size, workers), past + future, end.removed[k], k) {
        EveryTakenClientIsHandled(size, workers, past + future, end, k);
      }
    }
  }

  lemma {:induction false} OwnRunAcceptsNothing(s: State, future: seq<Action>)
    requires Run(s, future).Some? && forall k :: 0 <= k < |future| ==> !IsEnvironment(future[k])
    ensures Run(s, future).value.accepted == s.accepted
    decreases |future|
  {
    if future != [] {
      OwnRunAcceptsNothing(Next(s, future[0]).value, future[1..]);
    }
  }
}
