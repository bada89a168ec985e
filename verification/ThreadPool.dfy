/**
 * The slot-counting monitor of echod: one acceptor, any number of slave threads, one mutex,
 * one condition variable. Every program point at which another thread may run is a program
 * counter, and every atomic action is a step, so a run is an arbitrary interleaving.
 */
module ThreadPool {
  import opened Sequences

  const MAX_NUM_THREADS: nat := 3

  datatype AcceptorPc =
    | LoopTest     // about to test server_running
    | Lock         // about to lock the mutex
    | LimitTest    // holds the mutex, about to compare num_active with the limit
    | Waiting      // inside pthread_cond_wait, mutex released
    | Relock       // woken, about to take the mutex again
    | Increment    // holds the mutex, about to increment num_active
    | Unlock       // holds the mutex, about to unlock
    | Accept       // inside accept()
    | Create       // connection accepted, about to call pthread_create
    | Returned     // left the loop

  datatype SlavePc =
    | Serving      // echo loop
    | SlaveLock    // about to lock the mutex
    | Decrement    // holds the mutex, about to decrement num_active
    | SignalTest   // holds the mutex, about to compare num_active with the limit less one
    | Signal       // holds the mutex, about to signal
    | SlaveUnlock  // holds the mutex, about to unlock
    | Exited

  datatype Owner = Free | ByAcceptor | BySlave(id: nat)

  /** Slots that are never given back, by cause. The program does not keep these counts. */
  datatype Leaks = Leaks(interrupted: nat, uncreated: nat, abandoned: nat) {
    function Total(): nat { interrupted + uncreated + abandoned }
  }

  datatype State = State(
    running: bool,
    numActive: int,
    mutex: Owner,
    acceptor: AcceptorPc,
    slaves: seq<SlavePc>,
    leaks: Leaks)

  datatype AcceptResult = Accepted | Interrupted | AcceptError | NoMemory

  datatype Step =
    | AcceptorStep
    | AcceptReturns(result: AcceptResult)
    | CreateReturns(ok: bool)
    | SlaveStep(id: nat)
    | SpuriousWakeup

  function Init(): State {
    State(true, 0, Free, LoopTest, [], Leaks(0, 0, 0))
  }

  predicate Enabled(s: State, e: Step) {
    match e
    case AcceptorStep =>
      (match s.acceptor
       case Lock | Relock => s.mutex == Free
       case Waiting | Accept | Create | Returned => false
       case _ => true)
    case AcceptReturns(_) => s.acceptor == Accept
    case CreateReturns(_) => s.acceptor == Create
    case SlaveStep(i) =>
      i < |s.slaves| && s.slaves[i] != Exited && (s.slaves[i] == SlaveLock ==> s.mutex == Free)
    case SpuriousWakeup => s.acceptor == Waiting
  }

  function AcceptorNext(s: State): State
    requires Enabled(s, AcceptorStep)
  {
    match s.acceptor
    case LoopTest => s.(acceptor := if s.running then Lock else Returned)
    case Lock => s.(mutex := ByAcceptor, acceptor := LimitTest)
    case LimitTest =>
      if s.numActive == MAX_NUM_THREADS then s.(mutex := Free, acceptor := Waiting)
      else s.(acceptor := Increment)
    case Relock => s.(mutex := ByAcceptor, acceptor := LimitTest)
    case Increment => s.(numActive := s.numActive + 1, acceptor := Unlock)
    case Unlock => s.(mutex := Free, acceptor := Accept)
  }

  function AcceptNext(s: State, result: AcceptResult): State {
    match result
    case Accepted => s.(acceptor := Create)
    case Interrupted =>
      s.(acceptor := LoopTest, leaks := s.leaks.(interrupted := s.leaks.interrupted + 1))
    case AcceptError | NoMemory =>
      s.(running := false, acceptor := LoopTest, leaks := s.leaks.(abandoned := s.leaks.abandoned + 1))
  }

  function CreateNext(s: State, ok: bool): State {
    if ok then s.(slaves := s.slaves + [Serving], acceptor := LoopTest)
    else s.(acceptor := LoopTest, leaks := s.leaks.(uncreated := s.leaks.uncreated + 1))
  }

  function SlaveNext(s: State, i: nat): State
    requires Enabled(s, SlaveStep(i))
  {
    match s.slaves[i]
    case Serving => s.(slaves := s.slaves[i := SlaveLock])
    case SlaveLock => s.(mutex := BySlave(i), slaves := s.slaves[i := Decrement])
    case Decrement => s.(numActive := s.numActive - 1, slaves := s.slaves[i := SignalTest])
    case SignalTest =>
      s.(slaves := s.slaves[i := if s.numActive == MAX_NUM_THREADS - 1 then Signal else SlaveUnlock])
    case Signal =>
      s.(slaves := s.slaves[i := SlaveUnlock],
         acceptor := if s.acceptor == Waiting then Relock else s.acceptor)
    case SlaveUnlock => s.(mutex := Free, slaves := s.slaves[i := Exited])
  }

  function Apply(s: State, e: Step): State
    requires Enabled(s, e)
  {
    match e
    case AcceptorStep => AcceptorNext(s)
    case AcceptReturns(r) => AcceptNext(s, r)
    case CreateReturns(ok) => CreateNext(s, ok)
    case SlaveStep(i) => SlaveNext(s, i)
    case SpuriousWakeup => s.(acceptor := Relock)
  }

  /** `steps` leads from `s` to `t`. Every prefix of a run is a run, so a property of the
      last state of every run is a property of every reachable state. */
  predicate Runs(s: State, steps: seq<Step>, t: State)
    decreases |steps|
  {
    if steps == [] then s == t
    else Enabled(s, steps[0]) && Runs(Apply(s, steps[0]), steps[1..], t)
  }

  // ---------------------------------------------------------------- bookkeeping

  /** The slot a slave still occupies: it has not decremented num_active yet. */
  function Slot(p: SlavePc): nat {
    if p in {Serving, SlaveLock, Decrement} then 1 else 0
  }

  /** The acceptor's own slot, between its increment and the hand-over to a slave. */
  function Reservation(p: AcceptorPc): nat {
    if p in {Unlock, Accept, Create} then 1 else 0
  }

  function SlotsHeld(s: State): nat { Sum(s.slaves, Slot) }

  predicate InSection(p: SlavePc) { p in {Decrement, SignalTest, Signal, SlaveUnlock} }

  predicate AcceptorInSection(p: AcceptorPc) { p in {LimitTest, Increment, Unlock} }

  predicate AboutToSignal(p: SlavePc) { p in {SignalTest, Signal} }

  predicate AllExited(s: State) { forall i :: 0 <= i < |s.slaves| ==> s.slaves[i] == Exited }

  // ---------------------------------------------------------------- the inductive invariant

  predicate MutexInv(s: State) {
    && (s.mutex == ByAcceptor <==> AcceptorInSection(s.acceptor))
    && (s.mutex.BySlave? ==> s.mutex.id < |s.slaves|)
    && (forall i :: 0 <= i < |s.slaves| ==> (InSection(s.slaves[i]) <==> s.mutex == BySlave(i)))
  }

  predicate SlotInv(s: State) {
    && s.numActive == SlotsHeld(s) + Reservation(s.acceptor) + s.leaks.Total()
    && s.numActive <= MAX_NUM_THREADS
    && (s.acceptor == Increment ==> s.numActive < MAX_NUM_THREADS)
  }

  predicate WakeupInv(s: State) {
    && (forall i :: 0 <= i < |s.slaves| && s.slaves[i] == SignalTest ==> s.numActive < MAX_NUM_THREADS)
    && (forall i :: 0 <= i < |s.slaves| && s.slaves[i] == Signal ==> s.numActive == MAX_NUM_THREADS - 1)
    && (s.acceptor == Waiting ==>
          || s.numActive == MAX_NUM_THREADS
          || (s.numActive == MAX_NUM_THREADS - 1 && s.mutex.BySlave? && s.mutex.id < |s.slaves|
              && AboutToSignal(s.slaves[s.mutex.id])))
  }

  predicate RunningInv(s: State) {
    && (!s.running ==> s.acceptor in {LoopTest, Returned})
    && (s.acceptor == Returned ==> !s.running)
  }

  predicate Inv(s: State) { MutexInv(s) && SlotInv(s) && WakeupInv(s) && RunningInv(s) }

  lemma AcceptorStepKeepsInv(s: State)
    requires Inv(s) && Enabled(s, AcceptorStep)
    ensures Inv(AcceptorNext(s))
  {
  }

  lemma SlaveStepKeepsInv(s: State, i: nat)
    requires Inv(s) && Enabled(s, SlaveStep(i))
    ensures Inv(SlaveNext(s, i))
  {
    hide SlaveNext, MutexInv, SlotInv, WakeupInv, RunningInv;
    SlaveStepKeepsMutex(s, i);
    SlaveStepKeepsSlots(s, i);
    SlaveStepKeepsWakeups(s, i);
  }

  lemma SlaveStepKeepsMutex(s: State, i: nat)
    requires MutexInv(s) && RunningInv(s) && Enabled(s, SlaveStep(i))
    ensures MutexInv(SlaveNext(s, i)) && RunningInv(SlaveNext(s, i))
  {
  }

  lemma SlaveStepKeepsSlots(s: State, i: nat)
    requires SlotInv(s) && Enabled(s, SlaveStep(i))
    ensures SlotInv(SlaveNext(s, i))
  {
    var t := SlaveNext(s, i);
    SumUpdate(s.slaves, i, t.slaves[i], Slot);
    assert t.slaves == s.slaves[i := t.slaves[i]];
  }

  lemma SlaveStepKeepsWakeups(s: State, i: nat)
    requires MutexInv(s) && SlotInv(s) && WakeupInv(s) && Enabled(s, SlaveStep(i))
    ensures WakeupInv(SlaveNext(s, i))
  {
    hide SlotsHeld;
  }

  lemma CreateKeepsInv(s: State, ok: bool)
    requires Inv(s) && Enabled(s, CreateReturns(ok))
    ensures Inv(CreateNext(s, ok))
  {
    hide CreateNext, MutexInv, SlotInv, WakeupInv, RunningInv;
    CreateKeepsSlots(s, ok);
    CreateKeepsRest(s, ok);
  }

  lemma CreateKeepsRest(s: State, ok: bool)
    requires MutexInv(s) && WakeupInv(s) && RunningInv(s) && Enabled(s, CreateReturns(ok))
    ensures var t := CreateNext(s, ok); MutexInv(t) && WakeupInv(t) && RunningInv(t)
  {
  }

  lemma CreateKeepsSlots(s: State, ok: bool)
    requires SlotInv(s) && Enabled(s, CreateReturns(ok))
    ensures SlotInv(CreateNext(s, ok))
  {
    SumAppend(s.slaves, Serving, Slot);
  }

  lemma AcceptKeepsInv(s: State, r: AcceptResult)
    requires Inv(s) && Enabled(s, AcceptReturns(r))
    ensures Inv(AcceptNext(s, r))
  {
  }

  lemma WakeupKeepsInv(s: State)
    requires Inv(s) && Enabled(s, SpuriousWakeup)
    ensures Inv(s.(acceptor := Relock))
  {
  }

  lemma StepKeepsInv(s: State, e: Step)
    requires Inv(s) && Enabled(s, e)
    ensures Inv(Apply(s, e))
  {
    hide Inv;
    match e
    case AcceptorStep => AcceptorStepKeepsInv(s);
    case SlaveStep(i) => SlaveStepKeepsInv(s, i);
    case AcceptReturns(r) => AcceptKeepsInv(s, r);
    case CreateReturns(ok) => CreateKeepsInv(s, ok);
    case SpuriousWakeup => WakeupKeepsInv(s);
  }

  lemma {:induction false} RunKeepsInv(s: State, steps: seq<Step>, t: State)
    requires Inv(s) && Runs(s, steps, t)
    ensures Inv(t)
    decreases |steps|
  {
    if steps != [] {
      StepKeepsInv(s, steps[0]);
      RunKeepsInv(Apply(s, steps[0]), steps[1..], t);
    }
  }

  lemma ReachableInv(steps: seq<Step>, s: State)
    requires Runs(Init(), steps, s)
    ensures Inv(s)
  {
    RunKeepsInv(Init(), steps, s);
  }

  // ---------------------------------------------------------------- safety over all runs

  /** num_active is exactly the slots of slaves that have not decremented, plus the acceptor's own
      reservation, plus the leaked slots, and it never passes the limit. */
  lemma SlotConservation(steps: seq<Step>, s: State)
    requires Runs(Init(), steps, s)
    ensures s.numActive == SlotsHeld(s) + Reservation(s.acceptor) + s.leaks.Total()
    ensures 0 <= s.numActive <= MAX_NUM_THREADS
    ensures SlotsHeld(s) + Reservation(s.acceptor) <= MAX_NUM_THREADS - s.leaks.Total()
  {
    ReachableInv(steps, s);
  }

  /** At most one thread is between lock and unlock. */
  lemma MutualExclusion(steps: seq<Step>, s: State, i: nat, j: nat)
    requires Runs(Init(), steps, s)
    requires i < |s.slaves| && j < |s.slaves| && InSection(s.slaves[i])
    ensures !AcceptorInSection(s.acceptor)
    ensures InSection(s.slaves[j]) ==> i == j
  {
    ReachableInv(steps, s);
  }

  /** Signalling only when the count lands on the limit less one loses no wakeup: a waiting acceptor
      always has a full pool, unless the thread that freed the slot is still on its way to signal. */
  lemma NoLostWakeup(steps: seq<Step>, s: State)
    requires Runs(Init(), steps, s)
    requires s.acceptor == Waiting
    requires forall i :: 0 <= i < |s.slaves| ==> !AboutToSignal(s.slaves[i])
    ensures s.numActive == MAX_NUM_THREADS
  {
    ReachableInv(steps, s);
  }

  /** A slave that skips the signal has nobody to wake. */
  lemma SkippedSignalHasNoWaiter(steps: seq<Step>, s: State, i: nat)
    requires Runs(Init(), steps, s)
    requires i < |s.slaves| && s.slaves[i] == SignalTest && s.numActive != MAX_NUM_THREADS - 1
    ensures s.acceptor != Waiting
  {
    ReachableInv(steps, s);
    assert InSection(s.slaves[i]);
  }

  // ---------------------------------------------------------------- deadlock, exactly

  ghost predicate CanMove(s: State) { exists e: Step :: Enabled(s, e) && !e.SpuriousWakeup? }

  lemma HolderCanMove(s: State)
    requires Inv(s) && s.mutex != Free
    ensures CanMove(s)
  {
    if s.mutex == ByAcceptor {
      assert Enabled(s, AcceptorStep);
    } else {
      assert Enabled(s, SlaveStep(s.mutex.id));
    }
  }

  lemma UnfinishedSlaveCanMove(s: State, i: nat)
    requires Inv(s) && i < |s.slaves| && s.slaves[i] != Exited
    ensures CanMove(s)
  {
    if s.mutex == Free {
      assert Enabled(s, SlaveStep(i));
    } else {
      HolderCanMove(s);
    }
  }

  lemma FullPoolOfExitedSlavesIsLeaked(s: State)
    requires Inv(s) && s.acceptor == Waiting && AllExited(s)
    ensures s.leaks.Total() == MAX_NUM_THREADS
  {
    SumZero(s.slaves, Slot);
  }

  /** Nothing but a spurious wakeup can happen exactly when every slave has exited and the acceptor
      has either returned or waits on a pool whose every slot has leaked. */
  lemma DeadlockIff(steps: seq<Step>, s: State)
    requires Runs(Init(), steps, s)
    ensures !CanMove(s) <==>
            AllExited(s)
            && (s.acceptor == Returned
                || (s.acceptor == Waiting && s.leaks.Total() == MAX_NUM_THREADS))
  {
    ReachableInv(steps, s);
    if i :| 0 <= i < |s.slaves| && s.slaves[i] != Exited {
      UnfinishedSlaveCanMove(s, i);
    } else if s.mutex != Free {
      HolderCanMove(s);
    } else if s.acceptor == Waiting {
      FullPoolOfExitedSlavesIsLeaked(s);
    } else if s.acceptor == Accept {
      assert Enabled(s, AcceptReturns(Accepted));
    } else if s.acceptor == Create {
      assert Enabled(s, CreateReturns(true));
    } else if s.acceptor != Returned {
      assert Enabled(s, AcceptorStep);
    }
  }

  /** Once every slot has leaked, no continuation ever accepts or serves another client. */
  lemma {:induction false} LeakTrap(before: seq<Step>, s: State, after: seq<Step>, t: State)
    requires Runs(Init(), before, s) && s.leaks.Total() == MAX_NUM_THREADS
    requires Runs(s, after, t)
    ensures t.acceptor !in {Increment, Unlock, Accept, Create}
    ensures |t.slaves| == |s.slaves|
  {
    ReachableInv(before, s);
    LeakTrapFrom(s, after, t);
  }

  lemma {:induction false} LeakTrapFrom(s: State, steps: seq<Step>, t: State)
    requires Inv(s) && s.leaks.Total() == MAX_NUM_THREADS && Runs(s, steps, t)
    ensures t.acceptor !in {Increment, Unlock, Accept, Create} && |t.slaves| == |s.slaves|
    decreases |steps|
  {
    if steps != [] {
      var u := Apply(s, steps[0]);
      StepKeepsInv(s, steps[0]);
      LeakTrapFrom(u, steps[1..], t);
    }
  }

  /** The state after `k` turns in which accept was interrupted each time. */
  function AfterInterrupts(k: nat): State {
    State(true, k, Free, LoopTest, [], Leaks(k, 0, 0))
  }

  lemma {:induction false} RunsConcat(s: State, a: seq<Step>, t: State, b: seq<Step>, u: State)
    requires Runs(s, a, t) && Runs(t, b, u)
    ensures Runs(s, a + b, u)
    decreases |a|
  {
    if a == [] {
      assert a + b == b;
    } else {
      assert (a + b)[1..] == a[1..] + b;
      RunsConcat(Apply(s, a[0]), a[1..], t, b, u);
    }
  }

  lemma RunsOne(s: State, e: Step)
    requires Enabled(s, e)
    ensures Runs(s, [e], Apply(s, e))
  {
    assert Runs(Apply(s, e), [e][1..], Apply(s, e));
  }

  lemma Prepend(s: State, e: Step, rest: seq<Step>, t: State) returns (steps: seq<Step>)
    requires Enabled(s, e) && Runs(Apply(s, e), rest, t)
    ensures Runs(s, steps, t)
  {
    steps := [e] + rest;
    assert steps[1..] == rest;
  }

  /** Interrupting accept in every remaining turn leads to the state where the acceptor waits. */
  lemma {:induction false} InterruptsLeadToWait(k: nat) returns (steps: seq<Step>, s: State)
    requires k <= MAX_NUM_THREADS
    ensures Runs(AfterInterrupts(k), steps, s)
    ensures s.acceptor == Waiting && s.slaves == [] && s.leaks.interrupted == MAX_NUM_THREADS
    decreases MAX_NUM_THREADS - k
  {
    var s0 := AfterInterrupts(k);
    var s1 := Apply(s0, AcceptorStep);
    var s2 := Apply(s1, AcceptorStep);
    var s3 := Apply(s2, AcceptorStep);
    if k == MAX_NUM_THREADS {
      steps, s := [], s3;
    } else {
      var s4 := Apply(s3, AcceptorStep);
      var s5 := Apply(s4, AcceptorStep);
      steps, s := InterruptsLeadToWait(k + 1);
      steps := Prepend(s5, AcceptReturns(Interrupted), steps, s);
      steps := Prepend(s4, AcceptorStep, steps, s);
      steps := Prepend(s3, AcceptorStep, steps, s);
    }
    steps := Prepend(s2, AcceptorStep, steps, s);
    steps := Prepend(s1, AcceptorStep, steps, s);
    steps := Prepend(s0, AcceptorStep, steps, s);
  }

  /** The deadlock is real: as many interrupted accepts as there are slots strand the acceptor. */
  lemma DeadlockIsReachable() returns (steps: seq<Step>, s: State)
    ensures Runs(Init(), steps, s)
    ensures s.acceptor == Waiting && s.slaves == [] && s.leaks.interrupted == MAX_NUM_THREADS
    ensures !CanMove(s)
  {
    steps, s := InterruptsLeadToWait(0);
    DeadlockIff(steps, s);
  }

  // ---------------------------------------------------------------- progress

  /** The acceptor is between the loop test and its increment. */
  predicate Acquiring(s: State) { s.acceptor in {Lock, LimitTest, Waiting, Relock} }

  function SlaveRank(p: SlavePc): nat {
    match p
    case Serving => 18
    case SlaveLock => 15
    case Decrement => 12
    case SignalTest => 9
    case Signal => 6
    case SlaveUnlock => 3
    case Exited => 0
  }

  function AcceptorRank(p: AcceptorPc): nat {
    match p
    case Lock | Relock => 3
    case LimitTest => 2
    case Waiting => 1
    case _ => 0
  }

  /** Bounds the steps left until the acceptor has its slot. */
  function Measure(s: State): nat { Sum(s.slaves, SlaveRank) + AcceptorRank(s.acceptor) }

  lemma SlaveStepDecreasesMeasure(s: State, i: nat)
    requires Acquiring(s) && Enabled(s, SlaveStep(i))
    ensures Measure(SlaveNext(s, i)) < Measure(s) && Acquiring(SlaveNext(s, i))
  {
    var t := SlaveNext(s, i);
    SumUpdate(s.slaves, i, t.slaves[i], SlaveRank);
    assert t.slaves == s.slaves[i := t.slaves[i]];
  }

  lemma StepDecreasesMeasure(s: State, e: Step)
    requires Acquiring(s) && Enabled(s, e)
    ensures !e.SpuriousWakeup? ==> Measure(Apply(s, e)) < Measure(s)
    ensures e.SpuriousWakeup? ==> Measure(Apply(s, e)) == Measure(s) + 2
    ensures Acquiring(Apply(s, e)) || Apply(s, e).acceptor == Increment
  {
    if e.SlaveStep? {
      SlaveStepDecreasesMeasure(s, e.id);
      hide SlaveNext, Measure;
    }
  }

  function Spurious(steps: seq<Step>): nat {
    if steps == [] then 0 else (if steps[0].SpuriousWakeup? then 1 else 0) + Spurious(steps[1..])
  }

  /** The acceptor is still without a slot in every state the run leaves. */
  predicate StillAcquiring(s: State, steps: seq<Step>)
    decreases |steps|
  {
    steps != [] ==>
      Acquiring(s) && (Enabled(s, steps[0]) ==> StillAcquiring(Apply(s, steps[0]), steps[1..]))
  }

  /** However the threads are scheduled, the wait for a slot ends after a bounded number of steps, each
      spurious wakeup adding three: itself and the two that lead back to the wait. */
  lemma {:induction false} WaitIsBounded(s: State, steps: seq<Step>, t: State)
    requires Runs(s, steps, t) && StillAcquiring(s, steps)
    ensures |steps| + Measure(t) <= Measure(s) + 3 * Spurious(steps)
    decreases |steps|
  {
    if steps != [] {
      StepDecreasesMeasure(s, steps[0]);
      WaitIsBounded(Apply(s, steps[0]), steps[1..], t);
    }
  }

  /** With a slot that has not leaked, the acceptor can always still get it, and no step taken
      meanwhile leaks another. */
  lemma {:induction false} SlotIsObtained(s: State) returns (steps: seq<Step>, t: State)
    requires Inv(s) && Acquiring(s) && s.leaks.Total() < MAX_NUM_THREADS
    ensures Runs(s, steps, t) && t.acceptor == Increment && StillAcquiring(s, steps)
    ensures Spurious(steps) == 0 && t.leaks == s.leaks
    decreases Measure(s)
  {
    var e := SomeMove(s);
    var u := Apply(s, e);
    StepKeepsInv(s, e);
    StepDecreasesMeasure(s, e);
    if u.acceptor == Increment {
      steps, t := [e], u;
      RunsOne(s, e);
      assert StillAcquiring(u, [e][1..]);
      assert Spurious([e]) == Spurious([e][1..]);
    } else {
      var rest;
      rest, t := SlotIsObtained(u);
      steps := [e] + rest;
      assert steps[1..] == rest;
    }
  }

  lemma SomeMove(s: State) returns (e: Step)
    requires Inv(s) && Acquiring(s) && s.leaks.Total() < MAX_NUM_THREADS
    ensures Enabled(s, e) && !e.SpuriousWakeup?
  {
    if i :| 0 <= i < |s.slaves| && s.slaves[i] != Exited {
      UnfinishedSlaveCanMove(s, i);
    } else if s.mutex != Free {
      HolderCanMove(s);
    } else if s.acceptor == Waiting {
      FullPoolOfExitedSlavesIsLeaked(s);
    } else {
      assert Enabled(s, AcceptorStep);
    }
    e :| Enabled(s, e) && !e.SpuriousWakeup?;
  }

  /** The slave has given its slot back and holds the mutex. */
  function Leaving(p: SlavePc): nat {
    if p in {SignalTest, Signal, SlaveUnlock} then 1 else 0
  }

  /** The mutex lets one slave at most be on its way out. */
  lemma AtMostOneLeaving(s: State)
    requires MutexInv(s)
    ensures Sum(s.slaves, Leaving) <= 1
  {
    if Sum(s.slaves, Leaving) > 0 {
      var i := SumPositive(s.slaves, Leaving);
      SumUpdate(s.slaves, i, Exited, Leaving);
      if Sum(s.slaves[i := Exited], Leaving) > 0 {
        var j := SumPositive(s.slaves[i := Exited], Leaving);
        assert j != i && InSection(s.slaves[i]) && InSection(s.slaves[j]);
        assert false;
      }
    }
  }

  /** How long the acceptor can be kept waiting, from any reachable state: eighteen steps for every slot
      that has not leaked, twelve more, and three for each spurious wakeup. */
  lemma AcceptorWaitIsBounded(before: seq<Step>, s: State, steps: seq<Step>, t: State)
    requires Runs(Init(), before, s) && Runs(s, steps, t) && StillAcquiring(s, steps)
    ensures |steps| <= 18 * (MAX_NUM_THREADS - s.leaks.Total()) + 12 + 3 * Spurious(steps)
  {
    ReachableInv(before, s);
    if steps != [] {
      WaitIsBounded(s, steps, t);
      AtMostOneLeaving(s);
      SumBounded(s.slaves, SlaveRank, 18, Slot, 9, Leaving);
    }
  }

  /** The run ends with the acceptor about to take a slot. */
  predicate Obtains(s: State, steps: seq<Step>, t: State) {
    Runs(s, steps, t) && t.acceptor == Increment
  }

  /** A slot is within reach of a waiting acceptor exactly when some slot has not leaked. */
  lemma SlotWithinReachIff(before: seq<Step>, s: State)
    requires Runs(Init(), before, s) && Acquiring(s)
    ensures (exists steps, t :: Obtains(s, steps, t))
            <==> s.leaks.Total() < MAX_NUM_THREADS
  {
    ReachableInv(before, s);
    if s.leaks.Total() < MAX_NUM_THREADS {
      var steps, t := SlotIsObtained(s);
      assert Obtains(s, steps, t);
    } else {
      forall steps, t | Runs(s, steps, t)
        ensures !Obtains(s, steps, t)
      {
        LeakTrap(before, s, steps, t);
      }
    }
  }

  /** The bound is reached: with the pool full, spurious wakeups can keep the acceptor waiting for three
      steps each, as often as there are. */
  lemma {:induction false} SpuriousWakeupsCostThree(s: State, n: nat) returns (steps: seq<Step>)
    requires s.acceptor == Waiting && s.numActive == MAX_NUM_THREADS && s.mutex == Free
    ensures Runs(s, steps, s) && StillAcquiring(s, steps) && |steps| == 3 * n && Spurious(steps) == n
  {
    if n == 0 {
      return [];
    }
    steps := SpuriousWakeupsCostThree(s, n - 1);
    var s1 := Apply(s, SpuriousWakeup);
    var s2 := Apply(s1, AcceptorStep);
    assert Apply(s2, AcceptorStep) == s;
    steps := PrependAcquiring(s2, AcceptorStep, steps, s);
    steps := PrependAcquiring(s1, AcceptorStep, steps, s);
    steps := PrependAcquiring(s, SpuriousWakeup, steps, s);
  }

  lemma PrependAcquiring(s: State, e: Step, rest: seq<Step>, t: State) returns (steps: seq<Step>)
    requires Acquiring(s) && Enabled(s, e) && Runs(Apply(s, e), rest, t) && StillAcquiring(Apply(s, e), rest)
    ensures Runs(s, steps, t) && StillAcquiring(s, steps) && |steps| == |rest| + 1
    ensures Spurious(steps) == Spurious(rest) + if e.SpuriousWakeup? then 1 else 0
  {
    steps := [e] + rest;
    assert steps[1..] == rest;
  }

  // ---------------------------------------------------------------- what becomes of a connection

  function One(e: Step, which: Step -> bool): nat { if which(e) then 1 else 0 }

  function Number(steps: seq<Step>, which: Step -> bool): nat {
    if steps == [] then 0 else One(steps[0], which) + Number(steps[1..], which)
  }

  predicate IsAccepted(e: Step) { e == AcceptReturns(Accepted) }

  predicate IsInterrupted(e: Step) { e == AcceptReturns(Interrupted) }

  predicate IsFailure(e: Step) { e == AcceptReturns(AcceptError) || e == AcceptReturns(NoMemory) }

  predicate IsCreated(e: Step) { e == CreateReturns(true) }

  predicate IsUncreated(e: Step) { e == CreateReturns(false) }

  function AtCreate(s: State): nat { if s.acceptor == Create then 1 else 0 }

  /** What one step, and any run, adds to the counts. */
  predicate Accounted(s: State, accepted: nat, created: nat, uncreated: nat, interrupted: nat, failed: nat, t: State) {
    && |t.slaves| == |s.slaves| + created
    && AtCreate(s) + accepted == created + uncreated + AtCreate(t)
    && t.leaks.interrupted == s.leaks.interrupted + interrupted
    && t.leaks.uncreated == s.leaks.uncreated + uncreated
    && t.leaks.abandoned == s.leaks.abandoned + failed
  }

  /** The server runs until the first failure. */
  predicate StopsOnce(s: State) {
    (s.running <==> s.leaks.abandoned == 0) && s.leaks.abandoned <= 1
  }

  lemma StepAccount(s: State, e: Step)
    requires Enabled(s, e)
    ensures Accounted(s, One(e, IsAccepted), One(e, IsCreated), One(e, IsUncreated), One(e, IsInterrupted), One(e, IsFailure),
                      Apply(s, e))
    ensures RunningInv(s) && StopsOnce(s) ==> RunningInv(Apply(s, e)) && StopsOnce(Apply(s, e))
  {
  }

  lemma {:induction false} RunAccountFrom(s: State, steps: seq<Step>, t: State)
    requires Runs(s, steps, t)
    ensures Accounted(s, Number(steps, IsAccepted), Number(steps, IsCreated), Number(steps, IsUncreated),
                      Number(steps, IsInterrupted), Number(steps, IsFailure), t)
    ensures RunningInv(s) && StopsOnce(s) ==> StopsOnce(t)
    decreases |steps|
  {
    if steps != [] {
      StepAccount(s, steps[0]);
      hide Apply, Enabled, One, IsAccepted, IsCreated, IsUncreated, IsInterrupted, IsFailure;
      RunAccountFrom(Apply(s, steps[0]), steps[1..], t);
    }
  }

  /** Over every run: each accepted connection leads to one call of pthread_create, which the acceptor may
      just be about to make; each call that succeeds makes one slave; and the leaks are counted by what
      caused them. The server goes on until accept or an allocation fails, which happens once at most. */
  lemma RunAccount(steps: seq<Step>, s: State)
    requires Runs(Init(), steps, s)
    ensures |s.slaves| == Number(steps, IsCreated)
    ensures Number(steps, IsAccepted) == Number(steps, IsCreated) + Number(steps, IsUncreated) + AtCreate(s)
    ensures s.leaks == Leaks(Number(steps, IsInterrupted), Number(steps, IsUncreated), Number(steps, IsFailure))
    ensures Number(steps, IsFailure) <= 1 && (s.running <==> Number(steps, IsFailure) == 0)
  {
    RunAccountFrom(Init(), steps, s);
  }

  /** A failing accept or allocation ends the loop: the acceptor's next step, if it has not taken it yet, is
      to return, and there are no new clients. */
  lemma {:induction false} FailureEndsLoop(s: State, steps: seq<Step>, t: State)
    requires Runs(s, steps, t) && !s.running && RunningInv(s)
    ensures !t.running && |t.slaves| == |s.slaves|
    ensures t.acceptor == if s.acceptor == LoopTest && AcceptorStep !in steps then LoopTest else Returned
    decreases |steps|
  {
    if steps != [] {
      var u := Apply(s, steps[0]);
      FailureEndsLoop(u, steps[1..], t);
      assert steps == [steps[0]] + steps[1..];
    }
  }

  /** The acceptor returns exactly when it takes a step after a failure: in every reachable state it has
      returned if and only if the server has stopped and it is not just about to notice. */
  lemma ReturnedIff(before: seq<Step>, s: State)
    requires Runs(Init(), before, s)
    ensures s.acceptor == Returned <==> Number(before, IsFailure) == 1 && s.acceptor != LoopTest
    ensures s.acceptor == LoopTest && Number(before, IsFailure) == 1 ==> Apply(s, AcceptorStep).acceptor == Returned
  {
    RunAccount(before, s);
    ReachableInv(before, s);
  }

  // ---------------------------------------------------------------- which pools there can be

  /** Between two turns of the loop: `held` slaves serving, and slots leaked in two ways. */
  function Pool(held: nat, interrupted: nat, uncreated: nat): State {
    State(true, held + interrupted + uncreated, Free, LoopTest, seq(held, _ => Serving), Leaks(interrupted, uncreated, 0))
  }

  /** The six steps of a turn up to a return from accept, and one from pthread_create. */
  lemma TurnOfLoop(s: State, e: Step, last: seq<Step>, t: State) returns (steps: seq<Step>)
    requires s.acceptor == LoopTest && s.running && s.mutex == Free && s.numActive != MAX_NUM_THREADS
    requires var u := s.(numActive := s.numActive + 1, acceptor := Accept);
             Enabled(u, e) && Runs(Apply(u, e), last, t)
    ensures Runs(s, steps, t)
  {
    var s1 := Apply(s, AcceptorStep);
    var s2 := Apply(s1, AcceptorStep);
    var s3 := Apply(s2, AcceptorStep);
    var s4 := Apply(s3, AcceptorStep);
    var s5 := Apply(s4, AcceptorStep);
    assert s5 == s.(numActive := s.numActive + 1, acceptor := Accept);
    steps := Prepend(s5, e, last, t);
    steps := Prepend(s4, AcceptorStep, steps, t);
    steps := Prepend(s3, AcceptorStep, steps, t);
    steps := Prepend(s2, AcceptorStep, steps, t);
    steps := Prepend(s1, AcceptorStep, steps, t);
    steps := Prepend(s, AcceptorStep, steps, t);
  }

  /** From an empty pool to any that the limit allows. */
  lemma {:induction false} PoolIsReached(held: nat, interrupted: nat, uncreated: nat) returns (steps: seq<Step>)
    requires held + interrupted + uncreated <= MAX_NUM_THREADS
    ensures Runs(Init(), steps, Pool(held, interrupted, uncreated))
    decreases held + interrupted + uncreated
  {
    var t := Pool(held, interrupted, uncreated);
    var s, turn := Init(), [];
    if held > 0 {
      s := Pool(held - 1, interrupted, uncreated);
      steps := PoolIsReached(held - 1, interrupted, uncreated);
      var u := s.(numActive := s.numActive + 1, acceptor := Create);
      assert Apply(u, CreateReturns(true)) == t;
      RunsOne(u, CreateReturns(true));
      turn := TurnOfLoop(s, AcceptReturns(Accepted), [CreateReturns(true)], t);
    } else if interrupted > 0 {
      s := Pool(held, interrupted - 1, uncreated);
      steps := PoolIsReached(held, interrupted - 1, uncreated);
      turn := TurnOfLoop(s, AcceptReturns(Interrupted), [], t);
    } else if uncreated > 0 {
      s := Pool(held, interrupted, uncreated - 1);
      steps := PoolIsReached(held, interrupted, uncreated - 1);
      var u := s.(numActive := s.numActive + 1, acceptor := Create);
      assert Apply(u, CreateReturns(false)) == t;
      RunsOne(u, CreateReturns(false));
      turn := TurnOfLoop(s, AcceptReturns(Accepted), [CreateReturns(false)], t);
    } else {
      return [];
    }
    RunsConcat(Init(), steps, s, turn, t);
    steps := steps + turn;
  }

  /** The run leads to so many slots held and leaked. */
  predicate Fills(steps: seq<Step>, s: State, held: nat, interrupted: nat, uncreated: nat) {
    && Runs(Init(), steps, s) && SlotsHeld(s) == held
    && s.leaks.interrupted == interrupted && s.leaks.uncreated == uncreated
  }

  /** Which clients and leaks the pool can have at one time, exactly: as many together as the limit allows. */
  lemma PoolReachableIff(held: nat, interrupted: nat, uncreated: nat)
    ensures (exists steps, s :: Fills(steps, s, held, interrupted, uncreated))
            <==> held + interrupted + uncreated <= MAX_NUM_THREADS
  {
    if held + interrupted + uncreated <= MAX_NUM_THREADS {
      var steps := PoolIsReached(held, interrupted, uncreated);
      AllServing(held);
      assert Fills(steps, Pool(held, interrupted, uncreated), held, interrupted, uncreated);
    }
    forall steps, s | Fills(steps, s, held, interrupted, uncreated)
      ensures held + interrupted + uncreated <= MAX_NUM_THREADS
    {
      SlotConservation(steps, s);
    }
  }

  lemma {:induction false} AllServing(n: nat)
    ensures Sum(seq(n, _ => Serving), Slot) == n
  {
    if n > 0 {
      AllServing(n - 1);
      assert seq(n, _ => Serving) == seq(n - 1, _ => Serving) + [Serving];
      SumAppend(seq(n - 1, _ => Serving), Serving, Slot);
    }
  }

  // ---------------------------------------------------------------- the shared state, in place

  /** The process: the shared fields and every thread's program counter, updated in place. */
  class Process {
    var running: bool
    var numActive: int
    var mutex: Owner
    var acceptor: AcceptorPc
    var slaves: seq<SlavePc>
    ghost var leaks: Leaks
    ghost var history: seq<Step>

    ghost function View(): State reads this {
      State(running, numActive, mutex, acceptor, slaves, leaks)
    }

    constructor ()
      ensures View() == Init() && history == []
    {
      running, numActive, mutex, acceptor, slaves := true, 0, Free, LoopTest, [];
      leaks, history := Leaks(0, 0, 0), [];
    }

    method MoveAcceptor()
      requires Enabled(View(), AcceptorStep)
      modifies this
      ensures View() == Apply(old(View()), AcceptorStep) && history == old(history)
    {
      match acceptor
      case LoopTest => acceptor := if running then Lock else Returned;
      case Lock | Relock => mutex, acceptor := ByAcceptor, LimitTest;
      case LimitTest =>
        if numActive == MAX_NUM_THREADS {
          mutex, acceptor := Free, Waiting;
        } else {
          acceptor := Increment;
        }
      case Increment => numActive, acceptor := numActive + 1, Unlock;
      case Unlock => mutex, acceptor := Free, Accept;
    }

    method MoveSlave(i: nat)
      requires Enabled(View(), SlaveStep(i))
      modifies this
      ensures View() == Apply(old(View()), SlaveStep(i)) && history == old(history)
    {
      match slaves[i]
      case Serving => slaves := slaves[i := SlaveLock];
      case SlaveLock => mutex, slaves := BySlave(i), slaves[i := Decrement];
      case Decrement => numActive, slaves := numActive - 1, slaves[i := SignalTest];
      case SignalTest =>
        slaves := slaves[i := if numActive == MAX_NUM_THREADS - 1 then Signal else SlaveUnlock];
      case Signal =>
        slaves := slaves[i := SlaveUnlock];
        if acceptor == Waiting {
          acceptor := Relock;
        }
      case SlaveUnlock => mutex, slaves := Free, slaves[i := Exited];
    }

    method Move(e: Step)
      requires Enabled(View(), e)
      modifies this
      ensures View() == Apply(old(View()), e) && history == old(history)
    {
      match e
      case AcceptorStep => MoveAcceptor();
      case SlaveStep(i) => MoveSlave(i);
      case SpuriousWakeup => acceptor := Relock;
      case CreateReturns(ok) =>
        acceptor := LoopTest;
        if ok {
          slaves := slaves + [Serving];
        } else {
          leaks := leaks.(uncreated := leaks.uncreated + 1);
        }
      case AcceptReturns(result) =>
        match result
        case Accepted => acceptor := Create;
        case Interrupted =>
          acceptor := LoopTest;
          leaks := leaks.(interrupted := leaks.interrupted + 1);
        case AcceptError | NoMemory =>
          running, acceptor := false, LoopTest;
          leaks := leaks.(abandoned := leaks.abandoned + 1);
    }

    /** Follows a schedule, passing over entries whose thread is blocked. Whatever the schedule, the
        counter stays within the limit and accounts for every slot. */
    method Schedule(schedule: seq<Step>)
      requires View() == Init() && history == []
      modifies this
      ensures Runs(Init(), history, View())
      ensures 0 <= numActive <= MAX_NUM_THREADS
      ensures numActive == Sum(slaves, Slot) + Reservation(acceptor) + leaks.Total()
    {
      for k := 0 to |schedule|
        invariant Runs(Init(), history, View())
      {
        if CanDo(schedule[k]) {
          ghost var s := View();
          Move(schedule[k]);
          RunsOne(s, schedule[k]);
          RunsConcat(Init(), history, s, [schedule[k]], View());
          history := history + [schedule[k]];
        }
      }
      SlotConservation(history, View());
    }

    predicate CanDo(e: Step)
      reads this
      ensures CanDo(e) <==> Enabled(View(), e)
    {
      Enabled(State(running, numActive, mutex, acceptor, slaves, Leaks(0, 0, 0)), e)
    }
  }
}
