/**
  The thread-id pool of sockets/hw2/pserver pool/server.c: ids move from a stack to a worker, into
  a pipe, and back to the stack. `main` reads the pipe right after each successful creation.
*/
module ThreadPool {
  import opened Common

  function UpTo(n: nat): (r: seq<int>)
    ensures |r| == n
    ensures forall i :: 0 <= i < n ==> r[i] == i
  {
    seq(n, i => i)
  }

  /** `available_threads` and `thread_count`, updated in place. */
  class IdStack {
    const available: array<int>
    var count: int

    ghost predicate Valid()
      reads this
    {
      0 <= count <= available.Length
    }

    ghost function Ids(): seq<int>
      requires Valid()
      reads this, available
    {
      available[..count]
    }

    constructor (size: nat)
      ensures Valid() && fresh(available) && available.Length == size
      ensures Ids() == UpTo(size)
    {
      available := new int[size];
      count := size;
      new;
      for i := 0 to size
        invariant count == size == available.Length
        invariant forall k :: 0 <= k < i ==> available[k] == k
      {
        available[i] := i;
      }
    }

    method Take() returns (id: Option<int>)
      requires Valid()
      modifies this`count
      ensures Valid()
      ensures id.None? <==> old(Ids()) == []
      ensures id.None? ==> Ids() == []
      ensures id.Some? ==> Ids() + [id.value] == old(Ids())
    {
      if count == 0 {
        return None;
      }
      count := count - 1;
      id := Some(available[count]);
    }

    method Return(id: int)
      requires Valid() && count < available.Length
      modifies this`count, available
      ensures Valid()
      ensures Ids() == old(Ids()) + [id]
    {
      available[count] := id;
      count := count + 1;
    }
  }

  // ----- The protocol -----

  datatype Main =
    | MAccept
    | MLock
    | MTest
    | MAsleep
    | MWoken
    | MPop
    | MUnlockPop(id: int)
    | MCreate(id: int)
    | MRead
    | MLockPush(id: int)
    | MPush(id: int)
    | MSignal
    | MUnlockPush

  datatype Worker = WHandle(id: int) | WLock(id: int) | WWrite(id: int) | WUnlock | WDone

  datatype Holder = Nobody | ByMain | ByWorker(i: nat)

  /** `workers` keeps every worker ever created; `lost` records the ids of failed creations. */
  datatype State = State(
    available: seq<int>,
    count: int,
    main: Main,
    workers: seq<Worker>,
    pipe: seq<int>,
    mutex: Holder,
    lost: seq<int>)

  datatype Action = Accept | AcceptFails | Serve(created: bool) | WakeMain | Work(i: nat)

  function Init(size: nat): State {
    State(UpTo(size), size, MAccept, [], [], Nobody, [])
  }

  /** The signal can only reach `main`, the one thread that ever waits, and `main` is sending it. */
  function MainStep(s: State, created: bool): Option<State> {
    match s.main
    case MAccept => None
    case MLock => if s.mutex.Nobody? then Some(s.(main := MTest, mutex := ByMain)) else None
    case MTest => Some(if s.count == 0 then s.(main := MAsleep, mutex := Nobody) else s.(main := MPop))
    case MAsleep => None
    case MWoken => if s.mutex.Nobody? then Some(s.(main := MTest, mutex := ByMain)) else None
    case MPop =>
      if 0 < s.count <= |s.available|
      then Some(s.(main := MUnlockPop(s.available[s.count - 1]), count := s.count - 1))
      else None
    case MUnlockPop(id) => Some(s.(main := MCreate(id), mutex := Nobody))
    case MCreate(id) =>
      Some(if created then s.(main := MRead, workers := s.workers + [WHandle(id)])
           else s.(main := MAccept, lost := s.lost + [id]))
    case MRead => if s.pipe == [] then None else Some(s.(main := MLockPush(s.pipe[0]), pipe := s.pipe[1..]))
    case MLockPush(id) => if s.mutex.Nobody? then Some(s.(main := MPush(id), mutex := ByMain)) else None
    case MPush(id) =>
      if 0 <= s.count < |s.available|
      then Some(s.(main := MSignal, available := s.available[s.count := id], count := s.count + 1))
      else None
    case MSignal => Some(s.(main := MUnlockPush))
    case MUnlockPush => Some(s.(main := MAccept, mutex := Nobody))
  }

  function WorkerStep(s: State, i: nat): Option<State>
    requires i < |s.workers|
  {
    match s.workers[i]
    case WHandle(id) => Some(s.(workers := s.workers[i := WLock(id)]))
    case WLock(id) =>
      if s.mutex.Nobody? then Some(s.(workers := s.workers[i := WWrite(id)], mutex := ByWorker(i))) else None
    case WWrite(id) => Some(s.(workers := s.workers[i := WUnlock], pipe := s.pipe + [id]))
    case WUnlock => Some(s.(workers := s.workers[i := WDone], mutex := Nobody))
    case WDone => None
  }

  function Next(s: State, a: Action): Option<State> {
    match a
    case Accept => if s.main.MAccept? then Some(s.(main := MLock)) else None
    case AcceptFails => if s.main.MAccept? then Some(s) else None
    case Serve(created) => MainStep(s, created)
    case WakeMain => if s.main.MAsleep? then Some(s.(main := MWoken)) else None
    case Work(i) => if i < |s.workers| then WorkerStep(s, i) else None
  }

  function Run(s: State, schedule: seq<Action>): Option<State>
    decreases |schedule|
  {
    if schedule == [] then Some(s)
    else
      var next := Next(s, schedule[0]);
      if next.None? then None else Run(next.value, schedule[1..])
  }

  ghost predicate Reachable(size: nat, schedule: seq<Action>, s: State) {
    Run(Init(size), schedule) == Some(s)
  }

  // ----- The invariant -----

  /** The worker still has to put its id into the pipe. */
  predicate Owes(w: Worker) {
    w.WHandle? || w.WLock? || w.WWrite?
  }

  predicate MainHolds(m: Main) {
    m.MTest? || m.MPop? || m.MUnlockPop? || m.MPush? || m.MSignal? || m.MUnlockPush?
  }

  predicate Carries(m: Main) {
    m.MUnlockPop? || m.MCreate? || m.MLockPush? || m.MPush?
  }

  ghost predicate MutexInv(s: State) {
    && (MainHolds(s.main) <==> s.mutex.ByMain?)
    && (forall i :: 0 <= i < |s.workers| ==>
          (s.workers[i].WWrite? || s.workers[i].WUnlock? <==> s.mutex == ByWorker(i)))
    && (s.mutex.ByWorker? ==> s.mutex.i < |s.workers|)
  }

  /** The stack holds 0, 1, ..., count - 1 in order; the top ids are lost, one for each failure. */
  ghost predicate StackInv(size: nat, s: State) {
    && |s.available| == size
    && 0 <= s.count
    && s.count + (if Carries(s.main) || s.main.MRead? then 1 else 0) == size - |s.lost|
    && (forall i :: 0 <= i < s.count ==> s.available[i] == i)
    && (forall k :: 0 <= k < |s.lost| ==> s.lost[k] == size - 1 - k)
    && (Carries(s.main) ==> s.main.id == s.count)
    && (s.main.MPop? ==> s.count > 0)
    && (s.main.MAsleep? || s.main.MWoken? ==> s.count == 0)
  }

  /** The one id in transit is `count`: while `main` waits at the pipe it is in the pipe or with the
      newest worker, and otherwise neither has one. */
  ghost predicate TransitInv(s: State) {
    var n := |s.workers|;
    && (forall i :: 0 <= i < n - 1 ==> !Owes(s.workers[i]))
    && (n > 0 && Owes(s.workers[n - 1]) ==>
          s.main.MRead? && s.pipe == [] && s.workers[n - 1].id == s.count)
    && (s.pipe != [] ==> s.main.MRead? && s.pipe == [s.count])
    && (s.main.MRead? ==> s.pipe != [] || (n > 0 && Owes(s.workers[n - 1])))
  }

  ghost predicate IdInv(size: nat, s: State) {
    StackInv(size, s) && TransitInv(s)
  }

  ghost predicate Inv(size: nat, s: State) {
    MutexInv(s) && IdInv(size, s)
  }

  lemma MainKeepsMutex(size: nat, s: State, created: bool)
    requires Inv(size, s) && MainStep(s, created).Some?
    ensures MutexInv(MainStep(s, created).value)
  {
    var s' := MainStep(s, created).value;
    assert forall i :: 0 <= i < |s'.workers| ==>
             s'.workers[i] == if i < |s.workers| then s.workers[i] else WHandle(s.main.id);
  }

  lemma MainKeepsStack(size: nat, s: State, created: bool)
    requires Inv(size, s) && MainStep(s, created).Some?
    ensures StackInv(size, MainStep(s, created).value)
  {
  }

  lemma MainKeepsTransit(size: nat, s: State, created: bool)
    requires Inv(size, s) && MainStep(s, created).Some?
    ensures TransitInv(MainStep(s, created).value)
  {
  }

  lemma WorkerKeepsMutex(s: State, i: nat)
    requires MutexInv(s) && i < |s.workers| && WorkerStep(s, i).Some?
    ensures MutexInv(WorkerStep(s, i).value)
  {
  }

  lemma WorkerKeepsIds(size: nat, s: State, i: nat)
    requires Inv(size, s) && i < |s.workers| && WorkerStep(s, i).Some?
    ensures IdInv(size, WorkerStep(s, i).value)
  {
  }

  lemma InvStep(size: nat, s: State, a: Action)
    requires Inv(size, s) && Next(s, a).Some?
    ensures Inv(size, Next(s, a).value)
  {
    match a
    case Serve(created) =>
      MainKeepsMutex(size, s, created);
      MainKeepsStack(size, s, created);
      MainKeepsTransit(size, s, created);
    case Work(i) =>
      WorkerKeepsMutex(s, i);
      WorkerKeepsIds(size, s, i);
    case _ =>
  }

  lemma {:induction false} RunKeepsInv(size: nat, s: State, schedule: seq<Action>)
    requires Inv(size, s) && Run(s, schedule).Some?
    ensures Inv(size, Run(s, schedule).value)
    decreases |schedule|
  {
    if schedule != [] {
      InvStep(size, s, schedule[0]);
      RunKeepsInv(size, Next(s, schedule[0]).value, schedule[1..]);
    }
  }

  lemma ReachableInv(size: nat, schedule: seq<Action>, s: State)
    requires Reachable(size, schedule, s)
    ensures Inv(size, s)
  {
    RunKeepsInv(size, Init(size), schedule);
  }

  // ----- What every run guarantees -----

  function Owed(ws: seq<Worker>): seq<int> {
    if ws == [] then []
    else
      var last := ws[|ws| - 1];
      Owed(ws[..|ws| - 1]) + if Owes(last) then [last.id] else []
  }

  lemma {:induction false} NothingOwed(ws: seq<Worker>)
    requires forall i :: 0 <= i < |ws| ==> !Owes(ws[i])
    ensures Owed(ws) == []
  {
    if ws != [] {
      NothingOwed(ws[..|ws| - 1]);
    }
  }

  lemma {:induction false} LostAreTheTop(size: nat, lost: seq<int>)
    requires |lost| <= size && forall k :: 0 <= k < |lost| ==> lost[k] == size - 1 - k
    ensures multiset(UpTo(size - |lost|)) + multiset(lost) == multiset(UpTo(size))
  {
    if lost == [] {
      assert UpTo(size - |lost|) == UpTo(size);
    } else {
      var rest := lost[..|lost| - 1];
      LostAreTheTop(size, rest);
      assert lost == rest + [size - |lost|];
      assert UpTo(size - |rest|) == UpTo(size - |lost|) + [size - |lost|];
    }
  }

  function InHand(m: Main): seq<int> {
    if Carries(m) then [m.id] else []
  }

  lemma OneInTransit(size: nat, s: State)
    requires Inv(size, s)
    ensures InHand(s.main) + Owed(s.workers) + s.pipe == if Carries(s.main) || s.main.MRead? then [s.count] else []
  {
    if s.workers != [] {
      NothingOwed(s.workers[..|s.workers| - 1]);
    }
  }

  lemma StackIsPrefix(available: seq<int>, count: nat)
    requires count <= |available| && forall i :: 0 <= i < count ==> available[i] == i
    ensures available[..count] == UpTo(count)
  {
  }

  lemma StackJoins(count: nat, transit: seq<int>, n: nat)
    requires (transit == [] && n == count) || (transit == [count] && n == count + 1)
    ensures UpTo(count) + transit == UpTo(n)
  {
  }

  lemma StackThenTransit(size: nat, s: State)
    requires Inv(size, s)
    ensures 0 <= s.count <= |s.available| && |s.lost| <= size
    ensures s.available[..s.count] + (InHand(s.main) + Owed(s.workers) + s.pipe) == UpTo(size - |s.lost|)
  {
    OneInTransit(size, s);
    StackIsPrefix(s.available, s.count);
    StackJoins(s.count, InHand(s.main) + Owed(s.workers) + s.pipe, size - |s.lost|);
  }

  lemma AllTogether(size: nat, stack: seq<int>, hand: seq<int>, owed: seq<int>, pipe: seq<int>, lost: seq<int>)
    requires |lost| <= size && forall k :: 0 <= k < |lost| ==> lost[k] == size - 1 - k
    requires stack + (hand + owed + pipe) == UpTo(size - |lost|)
    ensures multiset(stack) + multiset(hand) + multiset(owed) + multiset(pipe) + multiset(lost) == multiset(UpTo(size))
  {
    LostAreTheTop(size, lost);
    assert multiset(stack + (hand + owed + pipe)) ==
           multiset(stack) + (multiset(hand) + multiset(owed) + multiset(pipe));
  }

  /** At every moment each id is in exactly one place: the stack, the hands of `main`, a worker,
      the pipe, or lost to a failed creation. */
  lemma IdsArePartitioned(size: nat, schedule: seq<Action>, s: State)
    requires Reachable(size, schedule, s)
    ensures 0 <= s.count <= |s.available|
    ensures multiset(s.available[..s.count]) + multiset(InHand(s.main)) + multiset(Owed(s.workers))
            + multiset(s.pipe) + multiset(s.lost) == multiset(UpTo(size))
  {
    ReachableInv(size, schedule, s);
    StackThenTransit(size, s);
    AllTogether(size, s.available[..s.count], InHand(s.main), Owed(s.workers), s.pipe, s.lost);
  }

  /** Whenever `main` goes back to accept, the stack is 0, 1, ... in order, short of one id for
      each failed creation; nothing is in transit. */
  lemma StackAtAccept(size: nat, schedule: seq<Action>, s: State)
    requires Reachable(size, schedule, s) && s.main.MAccept?
    ensures s.count == size - |s.lost| && |s.available| == size && s.count >= 0
    ensures s.available[..s.count] == UpTo(s.count)
    ensures s.pipe == [] && Owed(s.workers) == []
  {
    ReachableInv(size, schedule, s);
    NothingOwed(s.workers);
  }

  /** The pool never serves two clients at once: at most one worker, the newest, has yet to return
      its id, and while it does `main` waits at the pipe. */
  lemma OneClientAtATime(size: nat, schedule: seq<Action>, s: State, i: nat)
    requires Reachable(size, schedule, s) && i < |s.workers| && Owes(s.workers[i])
    ensures i == |s.workers| - 1 && s.main.MRead? && s.pipe == []
  {
    ReachableInv(size, schedule, s);
  }

  /** The test in front of the condition wait sends `main` to sleep exactly when as many creations
      have failed as there are ids; asleep, it has lost them all. */
  lemma WaitExactlyWhenAllLost(size: nat, schedule: seq<Action>, s: State, created: bool)
    requires Reachable(size, schedule, s)
    ensures s.main.MAsleep? ==> |s.lost| == size
    ensures s.main.MTest? ==>
              && MainStep(s, created).Some?
              && (MainStep(s, created).value.main.MAsleep? <==> |s.lost| == size)
  {
    ReachableInv(size, schedule, s);
  }

  predicate Waiting(m: Main) {
    m.MAsleep? || m.MWoken? || m.MTest?
  }

  lemma {:induction false} WaitingStays(s: State, schedule: seq<Action>)
    requires Waiting(s.main) && s.count == 0 && Run(s, schedule).Some?
    ensures var s' := Run(s, schedule).value;
            Waiting(s'.main) && s'.count == 0 && |s'.workers| == |s.workers|
    decreases |schedule|
  {
    if schedule != [] {
      WaitingStays(Next(s, schedule[0]).value, schedule[1..]);
    }
  }

  /** And that wait is final: nobody but `main` signals, so no later connection is accepted and no
      worker is ever created again. */
  lemma WaitIsForever(size: nat, past: seq<Action>, s: State, future: seq<Action>, s': State)
    requires Reachable(size, past, s) && s.main.MAsleep?
    requires Run(s, future) == Some(s')
    ensures Waiting(s'.main) && |s'.workers| == |s.workers|
  {
    ReachableInv(size, past, s);
    WaitingStays(s, future);
  }

  // ----- The wait is reachable, and all ids lost is exactly the end of service -----

  lemma {:induction false} RunConcat(s: State, first: seq<Action>, second: seq<Action>)
    requires Run(s, first).Some?
    ensures Run(s, first + second) == Run(Run(s, first).value, second)
    decreases |first|
  {
    if first == [] {
      assert first + second == second;
    } else {
      assert (first + second)[1..] == first[1..] + second;
      RunConcat(Next(s, first[0]).value, first[1..], second);
    }
  }

  lemma RunOne(s: State, a: Action)
    requires Next(s, a).Some?
    ensures Run(s, [a]) == Next(s, a)
  {
    assert Run(Next(s, a).value, [a][1..]) == Next(s, a);
  }

  lemma RunThree(s: State, a: Action, b: Action, c: Action)
    requires Next(s, a).Some? && Next(Next(s, a).value, b).Some?
    requires Next(Next(Next(s, a).value, b).value, c).Some?
    ensures Run(s, [a, b, c]) == Next(Next(Next(s, a).value, b).value, c)
  {
    var s1 := Next(s, a).value;
    var s2 := Next(s1, b).value;
    RunOne(s, a);
    RunOne(s1, b);
    RunOne(s2, c);
    RunConcat(s1, [b], [c]);
    RunConcat(s, [a], [b, c]);
    assert [b] + [c] == [b, c] && [a] + [b, c] == [a, b, c];
  }

  /** At accept, with nobody in the way. */
  ghost predicate Idle(size: nat, s: State) {
    Inv(size, s) && s.main.MAccept? && s.mutex.Nobody?
  }

  /** A worker may still have to release the mutex after its write. */
  lemma BecomeIdle(size: nat, s: State) returns (future: seq<Action>, s': State)
    requires Inv(size, s) && s.main.MAccept?
    ensures Run(s, future) == Some(s') && Idle(size, s')
    ensures |s'.workers| == |s.workers| && s'.lost == s.lost
  {
    if s.mutex.Nobody? {
      return [], s;
    }
    var a := Work(s.mutex.i);
    RunOne(s, a);
    InvStep(size, s, a);
    return [a], Next(s, a).value;
  }

  /** One round up to and including the attempt to create a worker. */
  lemma Round(size: nat, s: State, created: bool) returns (future: seq<Action>, s': State)
    requires Idle(size, s) && |s.lost| < size
    ensures Run(s, future) == Some(s') && Inv(size, s')
    ensures created ==> |s'.workers| == |s.workers| + 1
    ensures !created ==> Idle(size, s') && |s'.lost| == |s.lost| + 1 && s'.workers == s.workers
  {
    var front, back := [Accept, Serve(true), Serve(true)], [Serve(true), Serve(true), Serve(created)];
    RunThree(s, Accept, Serve(true), Serve(true));
    var mid := Run(s, front).value;
    RunThree(mid, Serve(true), Serve(true), Serve(created));
    RunConcat(s, front, back);
    RunKeepsInv(size, s, front + back);
    return front + back, Run(mid, back).value;
  }

  /** From every accept of every run, enough failing creations lead to the wait. */
  lemma WaitFrom(size: nat, s: State) returns (future: seq<Action>)
    requires Idle(size, s)
    ensures Run(s, future).Some? && Run(s, future).value.main.MAsleep?
    decreases size - |s.lost|
  {
    if |s.lost| == size {
      RunThree(s, Accept, Serve(true), Serve(true));
      return [Accept, Serve(true), Serve(true)];
    }
    var round, s' := Round(size, s, false);
    var rest := WaitFrom(size, s');
    RunConcat(s, round, rest);
    return round + rest;
  }

  lemma WaitIsReachable(size: nat, past: seq<Action>, s: State)
    requires Reachable(size, past, s) && s.main.MAccept?
    ensures exists future :: Run(s, future).Some? && Run(s, future).value.main.MAsleep?
  {
    ReachableInv(size, past, s);
    var settle, s' := BecomeIdle(size, s);
    var rest := WaitFrom(size, s');
    RunConcat(s, settle, rest);
    assert Run(s, settle + rest).Some?;
  }

  lemma AllLostStep(size: nat, s: State, a: Action)
    requires Inv(size, s) && |s.lost| == size && Next(s, a).Some?
    ensures |Next(s, a).value.lost| == size && |Next(s, a).value.workers| == |s.workers|
  {
  }

  lemma {:induction false} NoMoreWorkers(size: nat, s: State, future: seq<Action>)
    requires Inv(size, s) && |s.lost| == size && Run(s, future).Some?
    ensures |Run(s, future).value.workers| == |s.workers|
    decreases |future|
  {
    if future != [] {
      AllLostStep(size, s, future[0]);
      InvStep(size, s, future[0]);
      NoMoreWorkers(size, Next(s, future[0]).value, future[1..]);
    }
  }

  /** Whenever `main` is at accept, the server can ever serve another client if and only if fewer
      creations have failed than there are ids. */
  lemma ServesAgainExactly(size: nat, past: seq<Action>, s: State)
    requires Reachable(size, past, s) && s.main.MAccept?
    ensures (exists future :: Run(s, future).Some? && |Run(s, future).value.workers| > |s.workers|)
            <==> |s.lost| < size
  {
    ReachableInv(size, past, s);
    if |s.lost| < size {
      var settle, idle := BecomeIdle(size, s);
      var round, _ := Round(size, idle, true);
      RunConcat(s, settle, round);
      assert Run(s, settle + round).Some?;
    } else {
      forall future | Run(s, future).Some? ensures |Run(s, future).value.workers| == |s.workers| {
        NoMoreWorkers(size, s, future);
      }
    }
  }

  // ----- Attempts and actions counted -----

  function Accepts(schedule: seq<Action>): nat {
    if schedule == [] then 0 else (if schedule[0].Accept? then 1 else 0) + Accepts(schedule[1..])
  }

  /** A connection has been accepted and no attempt made yet to create its worker. */
  predicate Pending(m: Main) {
    m.MLock? || m.MTest? || m.MAsleep? || m.MWoken? || m.MPop? || m.MUnlockPop? || m.MCreate?
  }

  function Attempts(s: State): int {
    |s.workers| + |s.lost| + if Pending(s.main) then 1 else 0
  }

  lemma {:induction false} RunAttempts(s: State, schedule: seq<Action>)
    requires Run(s, schedule).Some?
    ensures Attempts(Run(s, schedule).value) == Attempts(s) + Accepts(schedule)
    decreases |schedule|
  {
    if schedule != [] {
      RunAttempts(Next(s, schedule[0]).value, schedule[1..]);
    }
  }

  /** In every run each accepted connection leads to one worker or one failed creation, except the
      one `main` is still dealing with; a failed accept leads to neither. */
  lemma OneAttemptPerConnection(size: nat, schedule: seq<Action>, s: State)
    requires Reachable(size, schedule, s)
    ensures |s.workers| + |s.lost| + (if Pending(s.main) then 1 else 0) == Accepts(schedule)
    ensures |s.workers| + |s.lost| <= Accepts(schedule)
  {
    RunAttempts(Init(size), schedule);
  }

  /** Exactly when each action is possible: `main` is stopped by the accept, the mutex, the empty pipe
      and sleep, a worker by the mutex and its end. */
  lemma EnabledExactly(size: nat, schedule: seq<Action>, s: State, created: bool, i: nat)
    requires Reachable(size, schedule, s) && i < |s.workers|
    ensures Next(s, Serve(created)).Some? <==>
            && !s.main.MAccept? && !s.main.MAsleep?
            && (s.main.MLock? || s.main.MWoken? || s.main.MLockPush? ==> s.mutex.Nobody?)
            && (s.main.MRead? ==> s.pipe != [])
    ensures Next(s, WakeMain).Some? <==> s.main.MAsleep?
    ensures Next(s, Accept).Some? <==> s.main.MAccept?
    ensures Next(s, AcceptFails) == if s.main.MAccept? then Some(s) else None
    ensures Next(s, Work(i)).Some? <==> !s.workers[i].WDone? && (s.workers[i].WLock? ==> s.mutex.Nobody?)
  {
    ReachableInv(size, schedule, s);
  }

  /** `main` never waits at the pipe in vain, nor for the mutex: a state in which neither `main`
      nor a worker can move is an accept with every id home, or the final wait. */
  lemma StuckOnlyAtAcceptOrWait(size: nat, schedule: seq<Action>, s: State)
    requires Reachable(size, schedule, s)
    requires forall a :: Next(s, a).Some? ==> a.Accept? || a.AcceptFails? || a.WakeMain?
    ensures s.main.MAccept? || (s.main.MAsleep? && |s.lost| == size)
    ensures forall i :: 0 <= i < |s.workers| ==> s.workers[i].WDone?
  {
    ReachableInv(size, schedule, s);
    HolderCanMove(size, s);
    forall i | 0 <= i < |s.workers| ensures s.workers[i].WDone? {
      assert Next(s, Work(i)).None?;
    }
    assert Next(s, Serve(true)).None?;
  }

  lemma HolderCanMove(size: nat, s: State)
    requires Inv(size, s)
    ensures s.mutex.ByMain? ==> Next(s, Serve(true)).Some?
    ensures s.mutex.ByWorker? ==> Next(s, Work(s.mutex.i)).Some?
  {
  }
}
