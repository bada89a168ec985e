/**
 * The parent process of tinyweb: it forks a child per connection and reaps the children in its
 * SIGCHLD handler. Signals coalesce into one pending bit, and a child may exit between any two steps,
 * those of the handler included.
 */
module Reaper {

  type Pid = nat

  datatype MainPc = Install | Accept | Fork

  /** Where control is: in the main program, about to call waitpid, or about to leave the handler. The
      signal is blocked while its handler runs. */
  datatype Mode = Main | Waitpid | Leave

  datatype State = State(
    installed: bool,
    pc: MainPc,
    mode: Mode,
    pending: bool,
    running: set<Pid>,
    zombies: set<Pid>,
    reaped: set<Pid>,
    nextPid: Pid)

  datatype Step =
    | MainStep
    | ForkFails
    | ChildExits(pid: Pid)
    | Deliver
    | Reap(pid: Pid)
    | NothingToReap
    | LeaveHandler

  function Init(): State { State(false, Install, Main, false, {}, {}, {}, 0) }

  predicate Enabled(s: State, e: Step) {
    match e
    case MainStep => s.mode == Main
    case ForkFails => s.mode == Main && s.pc == Fork
    case ChildExits(p) => p in s.running
    case Deliver => s.mode == Main && s.pending && s.installed
    case Reap(p) => s.mode == Waitpid && p in s.zombies
    case NothingToReap => s.mode == Waitpid && s.zombies == {}
    case LeaveHandler => s.mode == Leave
  }

  function Apply(s: State, e: Step): State
    requires Enabled(s, e)
  {
    match e
    case MainStep =>
      (match s.pc
       case Install => s.(installed := true, pc := Accept)
       case Accept => s.(pc := Fork)
       case Fork => s.(running := s.running + {s.nextPid}, nextPid := s.nextPid + 1, pc := Install))
    case ForkFails => s.(pc := Install)
    // without a handler the signal would be discarded
    case ChildExits(p) => s.(running := s.running - {p}, zombies := s.zombies + {p}, pending := s.pending || s.installed)
    case Deliver => s.(mode := Waitpid, pending := false)
    case Reap(p) => s.(zombies := s.zombies - {p}, reaped := s.reaped + {p})
    case NothingToReap => s.(mode := Leave)
    case LeaveHandler => s.(mode := Main)
  }

  predicate Runs(s: State, steps: seq<Step>, t: State)
    decreases |steps|
  {
    if steps == [] then s == t
    else Enabled(s, steps[0]) && Runs(Apply(s, steps[0]), steps[1..], t)
  }

  // ---------------------------------------------------------------- invariant

  ghost predicate Inv(s: State) {
    && (s.zombies != {} ==> s.pending || s.mode == Waitpid)
    && (s.running + s.zombies != {} || s.pc != Install || s.mode != Main || s.pending ==> s.installed)
    && (forall p: Pid :: p in s.running + s.zombies + s.reaped <==> p < s.nextPid)
    && s.running !! s.zombies !! s.reaped
  }

  lemma StepKeepsInv(s: State, e: Step)
    requires Inv(s) && Enabled(s, e)
    ensures Inv(Apply(s, e))
  {
    var t := Apply(s, e);
    assert t.running + t.zombies + t.reaped ==
           if e == MainStep && s.pc == Fork then s.running + s.zombies + s.reaped + {s.nextPid}
           else s.running + s.zombies + s.reaped;
  }

  lemma {:induction false} RunKeepsInv(s: State, steps: seq<Step>, t: State)
    requires Inv(s) && Runs(s, steps, t)
    ensures Inv(t)
    decreases |steps|
  {
    if steps != [] {
      StepKeepsInv(s, steps[0]);
      RunKeepsInv(Apply(s, steps[0]), steps[1..], t);
    }
  }

  /** No zombie is ever forgotten: while there is one, the signal is pending or the handler is still in
      its loop. A quiet parent has none. */
  lemma NoStuckZombies(steps: seq<Step>, s: State)
    requires Runs(Init(), steps, s)
    ensures s.zombies != {} ==> s.pending || s.mode == Waitpid
    ensures s.mode == Main && !s.pending ==> s.zombies == {}
  {
    RunKeepsInv(Init(), steps, s);
  }

  /** Every child ever forked is running, a zombie, or reaped, and only one of these. */
  lemma ChildrenAccountedFor(steps: seq<Step>, s: State)
    requires Runs(Init(), steps, s)
    ensures forall p: Pid :: p in s.running + s.zombies + s.reaped <==> p < s.nextPid
    ensures s.running !! s.zombies !! s.reaped
  {
    RunKeepsInv(Init(), steps, s);
  }

  // ---------------------------------------------------------------- what the steps add up to

  function One(e: Step, which: Step -> bool): nat { if which(e) then 1 else 0 }

  function Number(steps: seq<Step>, which: Step -> bool): nat {
    if steps == [] then 0 else One(steps[0], which) + Number(steps[1..], which)
  }

  predicate IsMain(e: Step) { e == MainStep }

  predicate IsForkFailure(e: Step) { e == ForkFails }

  predicate IsExit(e: Step) { e.ChildExits? }

  predicate IsReap(e: Step) { e.Reap? }

  predicate IsDelivery(e: Step) { e == Deliver }

  /** How far the parent is in a turn of its loop. */
  function Progress(s: State): nat {
    match s.pc
    case Install => 0
    case Accept => 1
    case Fork => 2
  }

  /** What one step, and any run, adds to the counts: three steps of the loop make a child, unless fork
      fails, which wastes two; children exit once and are reaped once. */
  predicate Accounted(s: State, main: nat, failed: nat, exits: nat, reaps: nat, t: State) {
    && main + 3 * s.nextPid + Progress(s) == 3 * t.nextPid + 2 * failed + Progress(t)
    && |t.running| + exits + s.nextPid == |s.running| + t.nextPid
    && |t.zombies| + reaps == |s.zombies| + exits
    && |t.reaped| == |s.reaped| + reaps
  }

  lemma StepAccount(s: State, e: Step)
    requires Inv(s) && Enabled(s, e)
    ensures Accounted(s, One(e, IsMain), One(e, IsForkFailure), One(e, IsExit), One(e, IsReap), Apply(s, e))
  {
    hide Inv, Enabled, Apply, Accounted;
    match e
    case ChildExits(p) => ExitAccount(s, p);
    case Reap(p) => ReapAccount(s, p);
    case MainStep => MainAccount(s);
    case _ => OtherAccount(s, e);
  }

  lemma ExitAccount(s: State, p: Pid)
    requires Inv(s) && Enabled(s, ChildExits(p))
    ensures Accounted(s, 0, 0, 1, 0, Apply(s, ChildExits(p)))
  {
    assert s.running == (s.running - {p}) + {p};
  }

  lemma ReapAccount(s: State, p: Pid)
    requires Inv(s) && Enabled(s, Reap(p))
    ensures Accounted(s, 0, 0, 0, 1, Apply(s, Reap(p)))
  {
    assert s.zombies == (s.zombies - {p}) + {p};
  }

  lemma MainAccount(s: State)
    requires Inv(s) && Enabled(s, MainStep)
    ensures Accounted(s, 1, 0, 0, 0, Apply(s, MainStep))
  {
    assert s.nextPid !in s.running + s.zombies + s.reaped;
  }

  lemma OtherAccount(s: State, e: Step)
    requires Enabled(s, e) && !e.ChildExits? && !e.Reap? && !e.MainStep?
    ensures Accounted(s, 0, if e.ForkFails? then 1 else 0, 0, 0, Apply(s, e))
  {
  }

  lemma {:induction false} RunAccountFrom(s: State, steps: seq<Step>, t: State)
    requires Inv(s) && Runs(s, steps, t)
    ensures Accounted(s, Number(steps, IsMain), Number(steps, IsForkFailure), Number(steps, IsExit), Number(steps, IsReap), t)
    decreases |steps|
  {
    if steps != [] {
      StepAccount(s, steps[0]);
      StepKeepsInv(s, steps[0]);
      hide Inv, Enabled, Apply, One;
      RunAccountFrom(Apply(s, steps[0]), steps[1..], t);
    }
  }

  /** Over every run: a turn of the loop makes one child unless fork fails; every child that exited is a
      zombie or reaped, and the others are running. */
  lemma RunAccount(steps: seq<Step>, s: State)
    requires Runs(Init(), steps, s)
    ensures Number(steps, IsMain) == 3 * s.nextPid + 2 * Number(steps, IsForkFailure) + Progress(s)
    ensures |s.running| + Number(steps, IsExit) == s.nextPid
    ensures |s.zombies| + Number(steps, IsReap) == Number(steps, IsExit)
    ensures |s.reaped| == Number(steps, IsReap)
  {
    RunAccountFrom(Init(), steps, s);
  }

  // ---------------------------------------------------------------- progress

  /** The steps of the kernel's delivery and of the handler. */
  predicate IsHandling(e: Step) { e.Deliver? || e.Reap? || e.NothingToReap? || e.LeaveHandler? }

  function Measure(s: State): nat {
    |s.zombies| + (if s.pending then 3 else 0) + (match s.mode case Main => 0 case Waitpid => 2 case Leave => 1)
  }

  function Exits(steps: seq<Step>): nat {
    if steps == [] then 0 else (if steps[0].ChildExits? then 1 else 0) + Exits(steps[1..])
  }

  function Handled(steps: seq<Step>): nat {
    if steps == [] then 0 else (if IsHandling(steps[0]) then 1 else 0) + Handled(steps[1..])
  }

  lemma StepMeasure(s: State, e: Step)
    requires Enabled(s, e)
    ensures IsHandling(e) ==> Measure(Apply(s, e)) < Measure(s)
    ensures Measure(Apply(s, e)) <= Measure(s) + if e.ChildExits? then 4 else 0
  {
    if e.Reap? {
      assert s.zombies == (s.zombies - {e.pid}) + {e.pid};
    } else if e.ChildExits? {
      assert |s.zombies + {e.pid}| <= |s.zombies| + 1;
    } else {
      assert Apply(s, e).zombies == s.zombies;
    }
  }

  /** In any run the handler takes a bounded number of steps, at most four more for each child that exits;
      so it cannot loop for ever, however exits and deliveries interleave. */
  lemma {:induction false} HandlerIsBounded(s: State, steps: seq<Step>, t: State)
    requires Runs(s, steps, t)
    ensures Handled(steps) + Measure(t) <= Measure(s) + 4 * Exits(steps)
    decreases |steps|
  {
    if steps != [] {
      StepMeasure(s, steps[0]);
      HandlerIsBounded(Apply(s, steps[0]), steps[1..], t);
    }
  }

  /** From every reachable state, handling alone leads to a quiet parent in which every zombie has been
      reaped and no running child has been touched, with one delivery of the signal if it is pending. */
  lemma ZombiesAreReaped(before: seq<Step>, s: State) returns (steps: seq<Step>, t: State)
    requires Runs(Init(), before, s)
    ensures Runs(s, steps, t) && Exits(steps) == 0 && Handled(steps) == |steps|
    ensures t.mode == Main && !t.pending && t.zombies == {}
    ensures t.reaped == s.reaped + s.zombies && t.running == s.running
    ensures Number(steps, IsDelivery) == if s.pending then 1 else 0
  {
    RunKeepsInv(Init(), before, s);
    steps, t := HandleAll(s);
  }

  predicate Quiet(s: State) { s.mode == Main && !s.pending }

  /** What there is to do for the kernel or the handler. It keeps children running and loses none. */
  lemma NextHandling(s: State) returns (e: Step)
    requires Inv(s) && !Quiet(s)
    ensures Enabled(s, e) && IsHandling(e)
    ensures var t := Apply(s, e);
            && t.running == s.running && t.reaped + t.zombies == s.reaped + s.zombies
            && One(e, IsDelivery) == (if s.pending then 1 else 0) - (if t.pending then 1 else 0)
  {
    if s.mode == Main {
      e := Deliver;
    } else if s.mode == Leave {
      e := LeaveHandler;
    } else if s.zombies == {} {
      e := NothingToReap;
    } else {
      var p :| p in s.zombies;
      e := Reap(p);
    }
  }

  lemma PrependHandling(s: State, e: Step, rest: seq<Step>, t: State) returns (steps: seq<Step>)
    requires Enabled(s, e) && IsHandling(e) && Runs(Apply(s, e), rest, t)
    ensures Runs(s, steps, t) && Exits(steps) == Exits(rest) && Handled(steps) == Handled(rest) + 1 && |steps| == |rest| + 1
    ensures Number(steps, IsDelivery) == One(e, IsDelivery) + Number(rest, IsDelivery)
  {
    steps := [e] + rest;
    assert steps[1..] == rest;
  }

  lemma {:induction false} HandleAll(s: State) returns (steps: seq<Step>, t: State)
    requires Inv(s)
    ensures Runs(s, steps, t) && Exits(steps) == 0 && Handled(steps) == |steps|
    ensures Quiet(t) && t.zombies == {}
    ensures t.reaped == s.reaped + s.zombies && t.running == s.running
    ensures Number(steps, IsDelivery) == if s.pending then 1 else 0
    decreases Measure(s)
  {
    if Quiet(s) {
      steps, t := [], s;
    } else {
      var e := NextHandling(s);
      StepKeepsInv(s, e);
      StepMeasure(s, e);
      hide Inv, Apply, Enabled, Measure;
      var rest;
      rest, t := HandleAll(Apply(s, e));
      steps := PrependHandling(s, e, rest, t);
    }
  }

  // ---------------------------------------------------------------- coalescing

  lemma {:induction false} RunsConcat(s: State, a: seq<Step>, t: State, b: seq<Step>, u: State)
    requires Runs(s, a, t) && Runs(t, b, u)
    ensures Runs(s, a + b, u)
    ensures forall which :: Number(a + b, which) == Number(a, which) + Number(b, which)
    decreases |a|
  {
    if a == [] {
      assert a + b == b;
    } else {
      assert (a + b)[1..] == a[1..] + b;
      RunsConcat(Apply(s, a[0]), a[1..], t, b, u);
    }
  }

  lemma RunsOne(s: State, e: Step)
    requires Enabled(s, e)
    ensures Runs(s, [e], Apply(s, e)) && forall which :: Number([e], which) == One(e, which)
  {
    assert [e][1..] == [];
    assert Runs(Apply(s, e), [e][1..], Apply(s, e));
  }

  predicate AtLeast(p: Pid, from: nat) { from <= p }

  function Pids(from: nat, to: nat): set<Pid> { set p: Pid | p < to && AtLeast(p, from) }

  /** The parent after `n` forks, of whose children the first `k` have exited, with the signal still pending. */
  function Family(n: nat, k: nat): State {
    State(n > 0, Install, Main, k > 0, Pids(k, n), Pids(0, k), {}, n)
  }

  lemma {:induction false} ManyForks(n: nat) returns (steps: seq<Step>)
    ensures Runs(Init(), steps, Family(n, 0)) && Number(steps, IsDelivery) == 0
  {
    if n == 0 {
      assert Family(0, 0) == Init();
      return [];
    }
    steps := ManyForks(n - 1);
    var s := Family(n - 1, 0);
    var s1 := Apply(s, MainStep);
    var s2 := Apply(s1, MainStep);
    assert Pids(0, n - 1) + {n - 1} == Pids(0, n);
    assert Apply(s2, MainStep) == Family(n, 0);
    RunsOne(s, MainStep);
    RunsOne(s1, MainStep);
    RunsOne(s2, MainStep);
    RunsConcat(s1, [MainStep], s2, [MainStep], Family(n, 0));
    RunsConcat(s, [MainStep], s1, [MainStep] + [MainStep], Family(n, 0));
    var turn := [MainStep] + ([MainStep] + [MainStep]);
    RunsConcat(Init(), steps, s, turn, Family(n, 0));
    steps := steps + turn;
  }

  lemma {:induction false} ManyExits(n: nat, k: nat) returns (steps: seq<Step>)
    requires k <= n
    ensures Runs(Init(), steps, Family(n, k)) && Number(steps, IsDelivery) == 0
  {
    if k == 0 {
      steps := ManyForks(n);
    } else {
      steps := ManyExits(n, k - 1);
      var s, e := Family(n, k - 1), ChildExits(k - 1);
      assert Pids(k - 1, n) - {k - 1} == Pids(k, n) && Pids(0, k - 1) + {k - 1} == Pids(0, k);
      assert Apply(s, e) == Family(n, k);
      RunsOne(s, e);
      RunsConcat(Init(), steps, s, [e], Family(n, k));
      steps := steps + [e];
    }
  }

  lemma {:induction false} PidsCount(n: nat)
    ensures |Pids(0, n)| == n
  {
    if n > 0 {
      PidsCount(n - 1);
      assert Pids(0, n) == Pids(0, n - 1) + {n - 1};
    } else {
      assert Pids(0, 0) == {};
    }
  }

  /** Signals do coalesce, and the loop of the handler makes up for it: for every number of children there is
      a run in which all of them exit before the one delivery of the signal, and all are reaped. */
  lemma OneDeliveryReapsAll(n: nat) returns (steps: seq<Step>, t: State)
    requires n > 0
    ensures Runs(Init(), steps, t) && Quiet(t)
    ensures Number(steps, IsExit) == n && Number(steps, IsDelivery) == 1
    ensures |t.reaped| == n && t.running == {} && t.zombies == {}
  {
    var before := ManyExits(n, n);
    var s := Family(n, n);
    var after;
    after, t := ZombiesAreReaped(before, s);
    RunsConcat(Init(), before, s, after, t);
    steps := before + after;
    RunAccount(steps, t);
    assert Pids(n, n) == {};
    PidsCount(n);
    assert t.reaped == Pids(0, n);
  }

  // ---------------------------------------------------------------- the handler itself

  /** The parent's view of its children, and its one pending signal. */
  class Parent {
    var pending: bool
    var running: set<Pid>
    var zombies: set<Pid>
    var reaped: set<Pid>

    predicate Valid()
      reads this
    {
      running !! zombies !! reaped
    }

    /** Every child there has been. */
    function Children(): set<Pid>
      reads this
    {
      running + zombies + reaped
    }

    constructor ()
      ensures Valid() && Children() == {} && !pending
    {
      pending, running, zombies, reaped := false, {}, {}, {};
    }

    /** A child exits: its status is kept, and the signal becomes pending. */
    method ChildExit(p: Pid)
      requires Valid()
      modifies this
      ensures Valid() && reaped == old(reaped) && Children() == old(Children())
      ensures if p in old(running) then running == old(running) - {p} && zombies == old(zombies) + {p} && pending
              else running == old(running) && zombies == old(zombies) && pending == old(pending)
    {
      if p in running {
        running, zombies, pending := running - {p}, zombies + {p}, true;
        assert {p} + (running + zombies + reaped) == running + zombies + reaped;
      }
    }

    /** waitpid(-1, &status, WNOHANG): some zombie, or nothing. */
    method WaitpidNoHang() returns (res: int)
      requires Valid()
      modifies this
      ensures Valid() && running == old(running) && pending == old(pending) && Children() == old(Children())
      ensures res > 0 <==> old(zombies) != {}
      ensures old(reaped) <= reaped && zombies + reaped == old(zombies) + old(reaped)
      ensures res > 0 ==> |zombies| + 1 == |old(zombies)|
      ensures res <= 0 ==> zombies == {}
    {
      if zombies == {} {
        return 0;
      }
      var p :| p in zombies;
      assert zombies == (zombies - {p}) + {p};
      zombies, reaped := zombies - {p}, reaped + {p};
      return 1;
    }

    /** The SIGCHLD case of the handler, with children exiting meanwhile: before each call of waitpid the
        next child of `before` exits, and those of `after` exit when the loop is over. Everything that was
        a zombie is reaped, nothing is lost, and what is left has its own signal pending. */
    method OnSigChld(before: seq<Pid>, after: seq<Pid>)
      requires Valid()
      modifies this
      ensures Valid() && Children() == old(Children())
      ensures old(zombies) <= reaped
      ensures zombies != {} ==> pending
      ensures running <= old(running) && forall p :: p in after ==> p !in running
      ensures forall p :: p in old(running) && p !in before && p !in after ==> p in running
    {
      pending := false;
      var k := 0;
      while true
        invariant Valid() && k <= |before| && Children() == old(Children())
        invariant old(zombies) <= zombies + reaped
        invariant running <= old(running) && forall p :: p in old(running) && p !in before ==> p in running
        decreases |before| - k, |zombies|
      {
        if k < |before| {
          ChildExit(before[k]);
          k := k + 1;
        }
        var res := WaitpidNoHang();
        if res <= 0 { break; }
      }
      ChildrenExit(after);
    }

    /** Children exit one after the other. */
    method ChildrenExit(pids: seq<Pid>)
      requires Valid() && (zombies != {} ==> pending)
      modifies this
      ensures Valid() && Children() == old(Children()) && reaped == old(reaped)
      ensures forall p :: p in running <==> p in old(running) && p !in pids
      ensures zombies != {} ==> pending
    {
      for i := 0 to |pids|
        invariant Valid() && Children() == old(Children()) && reaped == old(reaped)
        invariant forall p :: p in running <==> p in old(running) && p !in pids[..i]
        invariant zombies != {} ==> pending
      {
        ChildExit(pids[i]);
        assert pids[..i + 1] == pids[..i] + [pids[i]];
      }
      assert pids[..|pids|] == pids;
    }
  }
}
