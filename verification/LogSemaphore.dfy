/**
 * The named semaphore around the log. Every process brackets its output with sem_wait and sem_post,
 * but goes on when sem_wait fails, and posts all the same.
 */
module LogSemaphore {
  import opened Sequences
  import opened Tokenizer
  import opened Wire

  datatype Pc =
    | Idle
    | Waiting             // inside sem_wait
    | Logging(held: bool) // between wait and post; `held` if the wait succeeded

  datatype Entry = Entry(id: nat, text: string)

  /** The semaphore's value, the processes, what they have printed, and counts the program does not keep:
      posts made after a failed wait, and posts that failed. */
  datatype State = State(value: nat, procs: seq<Pc>, log: seq<Entry>, unmatched: nat, lost: nat)

  datatype Step =
    | Start
    | Call(id: nat)
    | Acquire(id: nat)
    | WaitFails(id: nat)
    | Print(id: nat, text: string)
    | Post(id: nat, ok: bool)

  function Init(): State { State(1, [], [], 0, 0) }

  predicate Enabled(s: State, e: Step) {
    match e
    case Start => true
    case Call(i) => i < |s.procs| && s.procs[i] == Idle
    case Acquire(i) => i < |s.procs| && s.procs[i] == Waiting && s.value > 0
    case WaitFails(i) => i < |s.procs| && s.procs[i] == Waiting
    case Print(i, _) => i < |s.procs| && s.procs[i].Logging?
    case Post(i, _) => i < |s.procs| && s.procs[i].Logging?
  }

  function Apply(s: State, e: Step): State
    requires Enabled(s, e)
  {
    match e
    case Start => s.(procs := s.procs + [Idle])
    case Call(i) => s.(procs := s.procs[i := Waiting])
    case Acquire(i) => s.(value := s.value - 1, procs := s.procs[i := Logging(true)])
    case WaitFails(i) => s.(procs := s.procs[i := Logging(false)])
    case Print(i, text) => s.(log := s.log + [Entry(i, text)])
    case Post(i, ok) =>
      s.(procs := s.procs[i := Idle],
         value := if ok then s.value + 1 else s.value,
         unmatched := if s.procs[i].held then s.unmatched else s.unmatched + 1,
         lost := if ok then s.lost else s.lost + 1)
  }

  predicate Runs(s: State, steps: seq<Step>, t: State)
    decreases |steps|
  {
    if steps == [] then s == t
    else Enabled(s, steps[0]) && Runs(Apply(s, steps[0]), steps[1..], t)
  }

  lemma {:induction false} RunsThen(s: State, steps: seq<Step>, t: State, e: Step)
    requires Runs(s, steps, t) && Enabled(t, e)
    ensures Runs(s, steps + [e], Apply(t, e))
    decreases |steps|
  {
    if steps == [] {
      assert Runs(Apply(s, e), [e][1..], Apply(t, e));
    } else {
      assert (steps + [e])[1..] == steps[1..] + [e];
      RunsThen(Apply(s, steps[0]), steps[1..], t, e);
    }
  }

  // ---------------------------------------------------------------- accounting

  function Holds(p: Pc): nat { if p == Logging(true) then 1 else 0 }

  function Intrudes(p: Pc): nat { if p == Logging(false) then 1 else 0 }

  function InSection(p: Pc): nat { if p.Logging? then 1 else 0 }

  function Holders(s: State): nat { Sum(s.procs, Holds) }

  /** The processes that log although their wait failed. */
  function Intruders(s: State): nat { Sum(s.procs, Intrudes) }

  function Loggers(s: State): nat { Sum(s.procs, InSection) }

  predicate Balanced(s: State) { s.value + Holders(s) + s.lost == 1 + s.unmatched }

  lemma StepKeepsBalance(s: State, e: Step)
    requires Balanced(s) && Enabled(s, e)
    ensures Balanced(Apply(s, e))
  {
    match e
    case Start => SumAppend(s.procs, Idle, Holds);
    case Call(i) => SumUpdate(s.procs, i, Waiting, Holds);
    case Acquire(i) => SumUpdate(s.procs, i, Logging(true), Holds);
    case WaitFails(i) => SumUpdate(s.procs, i, Logging(false), Holds);
    case Print(_, _) =>
    case Post(i, ok) => SumUpdate(s.procs, i, Idle, Holds);
  }

  lemma {:induction false} RunKeepsBalance(s: State, steps: seq<Step>, t: State)
    requires Balanced(s) && Runs(s, steps, t)
    ensures Balanced(t)
    decreases |steps|
  {
    if steps != [] {
      StepKeepsBalance(s, steps[0]);
      RunKeepsBalance(Apply(s, steps[0]), steps[1..], t);
    }
  }

  /** For any number of processes and any interleaving: the value, the successful holders and the lost
      posts add up to one plus the posts made after a failed wait. */
  lemma SemaphoreAccounting(steps: seq<Step>, s: State)
    requires Runs(Init(), steps, s)
    ensures s.value + Holders(s) + s.lost == 1 + s.unmatched
  {
    RunKeepsBalance(Init(), steps, s);
  }

  // ---------------------------------------------------------------- mutual exclusion, exactly

  predicate NoWaitFails(steps: seq<Step>) { forall i :: 0 <= i < |steps| ==> !steps[i].WaitFails? }

  /** How many processes the semaphore lets, and has let, into the logged section. */
  function Capacity(s: State): nat { s.value + Loggers(s) }

  /** Two processes are in the logged section. */
  predicate Crowded(s: State) {
    exists i, j :: 0 <= i < j < |s.procs| && s.procs[i].Logging? && s.procs[j].Logging?
  }

  lemma CrowdedIff(s: State)
    ensures Crowded(s) <==> Loggers(s) >= 2
  {
    if i, j :| 0 <= i < j < |s.procs| && s.procs[i].Logging? && s.procs[j].Logging? {
      SumUpdate(s.procs, j, Idle, InSection);
      SumAtLeastElement(s.procs[j := Idle], i, InSection);
    }
    if Loggers(s) >= 2 {
      var j := SumPositive(s.procs, InSection);
      SumUpdate(s.procs, j, Idle, InSection);
      var i := SumPositive(s.procs[j := Idle], InSection);
      assert s.procs[i].Logging? && s.procs[j].Logging? && i != j;
    }
  }

  /** Only a failed wait makes room for one more. */
  lemma StepCapacity(s: State, e: Step)
    requires Enabled(s, e)
    ensures if e.WaitFails? then Capacity(Apply(s, e)) == Capacity(s) + 1 else Capacity(Apply(s, e)) <= Capacity(s)
  {
    match e
    case Start => SumAppend(s.procs, Idle, InSection);
    case Call(i) => SumUpdate(s.procs, i, Waiting, InSection);
    case Acquire(i) => SumUpdate(s.procs, i, Logging(true), InSection);
    case WaitFails(i) => SumUpdate(s.procs, i, Logging(false), InSection);
    case Print(_, _) =>
    case Post(i, _) => SumUpdate(s.procs, i, Idle, InSection);
  }

  lemma {:induction false} CapacityNeverGrows(s: State, steps: seq<Step>, t: State)
    requires Runs(s, steps, t) && NoWaitFails(steps)
    ensures Capacity(t) <= Capacity(s)
    decreases |steps|
  {
    if steps != [] {
      StepCapacity(s, steps[0]);
      NoWaitFailsTail(steps);
      CapacityNeverGrows(Apply(s, steps[0]), steps[1..], t);
    }
  }

  lemma NoWaitFailsTail(steps: seq<Step>)
    requires NoWaitFails(steps) && steps != []
    ensures !steps[0].WaitFails? && NoWaitFails(steps[1..])
  {
    assert forall i :: 0 <= i < |steps| - 1 ==> steps[1..][i] == steps[i + 1];
  }

  /** In a run in which no wait fails, at most one process is in the logged section. */
  lemma LogExclusion(steps: seq<Step>, s: State, i: nat, j: nat)
    requires Runs(Init(), steps, s) && NoWaitFails(steps)
    requires i < |s.procs| && j < |s.procs| && s.procs[i].Logging? && s.procs[j].Logging?
    ensures i == j
  {
    CapacityNeverGrows(Init(), steps, s);
    CrowdedIff(s);
  }

  /** The steps lead to a crowded section, without a failed wait among them. */
  predicate Crowds(s: State, steps: seq<Step>, t: State) {
    Runs(s, steps, t) && NoWaitFails(steps) && Crowded(t)
  }

  /** Processes that start now fill up what room there is. */
  lemma {:induction false} RoomIsTaken(s: State) returns (steps: seq<Step>, t: State)
    requires Capacity(s) >= 2
    ensures Crowds(s, steps, t)
    decreases 2 - Loggers(s)
  {
    CrowdedIff(s);
    if Loggers(s) >= 2 {
      steps, t := [], s;
    } else {
      var n := |s.procs|;
      var s1 := Apply(s, Start);
      var s2 := Apply(s1, Call(n));
      var s3 := Apply(s2, Acquire(n));
      assert s3.procs == s.procs + [Logging(true)];
      SumAppend(s.procs, Logging(true), InSection);
      steps, t := RoomIsTaken(s3);
      hide Crowded;
      steps := Prepend(s2, Acquire(n), steps, t);
      steps := Prepend(s1, Call(n), steps, t);
      steps := Prepend(s, Start, steps, t);
    }
  }

  /** From any state, waits that succeed can still lead to two processes in the section exactly when the
      capacity is at least two. */
  lemma CrowdedLaterIff(s: State)
    ensures (exists steps, t :: Crowds(s, steps, t)) <==> Capacity(s) >= 2
  {
    if Capacity(s) >= 2 {
      var steps, t := RoomIsTaken(s);
    }
    forall steps, t | Crowds(s, steps, t)
      ensures Capacity(s) >= 2
    {
      CapacityNeverGrows(s, steps, t);
      CrowdedIff(t);
    }
  }

  /** For every reachable state: exclusion is at stake, without any further failure, exactly when the waits
      that failed outnumber the posts that were lost. */
  lemma ExclusionBreaksIff(before: seq<Step>, s: State)
    requires Runs(Init(), before, s)
    ensures (exists steps, t :: Crowds(s, steps, t)) <==> s.unmatched + Intruders(s) > s.lost
  {
    SemaphoreAccounting(before, s);
    SumOfTwo(s.procs, InSection, Holds, Intrudes);
    CrowdedLaterIff(s);
  }

  /** One failed wait is enough to put two processes there. */
  lemma FailedWaitBreaksExclusion() returns (steps: seq<Step>, s: State)
    ensures Runs(Init(), steps, s) && |s.procs| == 2 && s.procs[0].Logging? && s.procs[1].Logging?
  {
    var s1 := Apply(Init(), Start);
    var s2 := Apply(s1, Start);
    var s3 := Apply(s2, Call(0));
    var s4 := Apply(s3, Call(1));
    var s5 := Apply(s4, WaitFails(0));
    s := Apply(s5, Acquire(1));
    steps := Prepend(s5, Acquire(1), [], s);
    steps := Prepend(s4, WaitFails(0), steps, s);
    steps := Prepend(s3, Call(1), steps, s);
    steps := Prepend(s2, Call(0), steps, s);
    steps := Prepend(s1, Start, steps, s);
    steps := Prepend(Init(), Start, steps, s);
  }

  lemma Prepend(s: State, e: Step, rest: seq<Step>, t: State) returns (steps: seq<Step>)
    requires Enabled(s, e) && Runs(Apply(s, e), rest, t)
    ensures Runs(s, steps, t)
    ensures !e.WaitFails? && NoWaitFails(rest) ==> NoWaitFails(steps)
  {
    steps := [e] + rest;
    assert steps[1..] == rest;
  }

  /** While a process is in the section and there is room for one only, nobody else's text gets in between
      its own: what is printed until it posts is all its own. */
  lemma {:induction false} BracketIsContiguous(s: State, i: nat, steps: seq<Step>, t: State)
    requires Capacity(s) <= 1 && i < |s.procs| && s.procs[i].Logging?
    requires Runs(s, steps, t) && NoWaitFails(steps)
    requires forall k :: 0 <= k < |steps| ==> !(steps[k].Post? && steps[k].id == i)
    ensures s.log <= t.log && forall n :: |s.log| <= n < |t.log| ==> t.log[n].id == i
    decreases |steps|
  {
    if steps != [] {
      var e := steps[0];
      var u := Apply(s, e);
      StepCapacity(s, e);
      NoWaitFailsTail(steps);
      assert e.Print? ==> e.id == i by {
        CrowdedIff(s);
      }
      assert forall k :: 0 <= k < |steps| - 1 ==> steps[1..][k] == steps[k + 1];
      BracketIsContiguous(u, i, steps[1..], t);
    }
  }

  /** With nobody holding the semaphore, a waiting process can go on unless a post was lost for every
      one that could have freed it. */
  lemma WaiterBlockedIff(steps: seq<Step>, s: State, i: nat)
    requires Runs(Init(), steps, s) && i < |s.procs| && s.procs[i] == Waiting
    requires forall j :: 0 <= j < |s.procs| ==> s.procs[j] != Logging(true)
    ensures !Enabled(s, Acquire(i)) <==> s.lost == 1 + s.unmatched
  {
    SemaphoreAccounting(steps, s);
    SumZero(s.procs, Holds);
  }

  // ---------------------------------------------------------------- the three bracketed functions

  function Prints(id: nat, texts: seq<string>): (steps: seq<Step>)
    ensures |steps| == |texts|
  {
    seq(|texts|, k requires 0 <= k < |texts| => Print(id, texts[k]))
  }

  function Entries(id: nat, texts: seq<string>): (entries: seq<Entry>)
    ensures |entries| == |texts|
  {
    seq(|texts|, k requires 0 <= k < |texts| => Entry(id, texts[k]))
  }

  /** The steps of a call that prints `texts`: one wait, the texts in order, one post. */
  function Bracket(id: nat, texts: seq<string>, waitOk: bool, postOk: bool): seq<Step> {
    [Call(id)] + [if waitOk then Acquire(id) else WaitFails(id)] + Prints(id, texts) + [Post(id, postOk)]
  }

  /** One process and its way through the log: the shared semaphore, as earlier steps have left it, and
      the process's own verbosity. The history is that of all processes. */
  class Logger {
    const id: nat
    var verbosity: nat
    var value: nat
    var procs: seq<Pc>
    var log: seq<Entry>
    ghost var unmatched: nat
    ghost var lost: nat
    ghost var history: seq<Step>

    ghost function View(): State reads this {
      State(value, procs, log, unmatched, lost)
    }

    /** The history accounts for the state, and the process is outside the logged section. */
    ghost predicate Valid() reads this {
      Runs(Init(), history, View()) && id < |procs| && procs[id] == Idle
    }

    constructor (id: nat, verbosity: nat, s: State, ghost past: seq<Step>)
      requires Runs(Init(), past, s) && id < |s.procs| && s.procs[id] == Idle
      ensures Valid() && View() == s && history == past && this.id == id && this.verbosity == verbosity
    {
      this.id, this.verbosity, value, procs, log := id, verbosity, s.value, s.procs, s.log;
      unmatched, lost, history := s.unmatched, s.lost, past;
    }

    /** The call of sem_wait until it returns; a failure is reported and otherwise ignored. */
    method SemWait(ok: bool)
      requires Valid() && (ok ==> value > 0)
      modifies this`value, this`procs, this`history
      ensures history == old(history) + [Call(id)] + [if ok then Acquire(id) else WaitFails(id)]
      ensures Runs(Init(), history, View()) && id < |procs| && procs[id] == Logging(ok)
    {
      ghost var s := View();
      RunsThen(Init(), history, s, Call(id));
      procs, history := procs[id := Waiting], history + [Call(id)];
      s := View();
      ghost var e := if ok then Acquire(id) else WaitFails(id);
      RunsThen(Init(), history, s, e);
      if ok {
        value := value - 1;
      }
      procs, history := procs[id := Logging(ok)], history + [e];
    }

    method Printf(text: string)
      requires Runs(Init(), history, View()) && id < |procs| && procs[id].Logging?
      modifies this`log, this`history
      ensures history == old(history) + [Print(id, text)] && log == old(log) + [Entry(id, text)]
      ensures Runs(Init(), history, View())
    {
      RunsThen(Init(), history, View(), Print(id, text));
      log, history := log + [Entry(id, text)], history + [Print(id, text)];
    }

    method SemPost(ok: bool)
      requires Runs(Init(), history, View()) && id < |procs| && procs[id].Logging?
      modifies this`value, this`procs, this`unmatched, this`lost, this`history
      ensures history == old(history) + [Post(id, ok)] && Valid()
    {
      ghost var s := View();
      RunsThen(Init(), history, s, Post(id, ok));
      if ok {
        value := value + 1;
      } else {
        lost := lost + 1;
      }
      if !s.procs[id].held {
        unmatched := unmatched + 1;
      }
      procs, history := procs[id := Idle], history + [Post(id, ok)];
    }

    /** What the three functions share: the texts, printed between one wait and one post. */
    method Bracketed(texts: seq<string>, waitOk: bool, postOk: bool)
      requires Valid() && (waitOk ==> value > 0)
      modifies this`value, this`procs, this`log, this`unmatched, this`lost, this`history
      ensures Valid() && history == old(history) + Bracket(id, texts, waitOk, postOk)
      ensures log == old(log) + Entries(id, texts)
    {
      SemWait(waitOk);
      ghost var waited := history;
      for k := 0 to |texts|
        invariant Runs(Init(), history, View()) && id < |procs| && procs[id] == Logging(waitOk)
        invariant history == waited + Prints(id, texts[..k])
        invariant log == old(log) + Entries(id, texts[..k])
      {
        Printf(texts[k]);
        assert Prints(id, texts[..k + 1]) == Prints(id, texts[..k]) + [Print(id, texts[k])];
        assert Entries(id, texts[..k + 1]) == Entries(id, texts[..k]) + [Entry(id, texts[k])];
      }
      assert texts[..|texts|] == texts;
      SemPost(postOk);
    }

    method PrintLog(text: string, waitOk: bool, postOk: bool)
      requires Valid() && (waitOk ==> value > 0)
      modifies this`value, this`procs, this`log, this`unmatched, this`lost, this`history
      ensures Valid() && history == old(history) + Bracket(id, [text], waitOk, postOk)
      ensures log == old(log) + [Entry(id, text)]
    {
      Bracketed([text], waitOk, postOk);
    }

    method PrintDebug(text: string, waitOk: bool, postOk: bool)
      requires Valid() && (waitOk && verbosity >= 2 ==> value > 0)
      modifies this`value, this`procs, this`log, this`unmatched, this`lost, this`history
      ensures Valid()
      ensures history == old(history) + if verbosity < 2 then [] else Bracket(id, [text], waitOk, postOk)
      ensures log == old(log) + if verbosity < 2 then [] else [Entry(id, text)]
    {
      if verbosity < 2 {
        assert history + [] == history && log + [] == log;
        return;
      }
      Bracketed([text], waitOk, postOk);
    }

    /** print_http_header: a title, then the response's lines, from a copy of the response. Nothing happens
        when the process is silent or has no memory for the copy. */
    method PrintHttpHeader(title: string, response: string, allocOk: bool, waitOk: bool, postOk: bool)
      requires NUL !in response
      requires Valid() && (waitOk && allocOk && verbosity > 0 ==> value > 0)
      modifies this`value, this`procs, this`log, this`unmatched, this`lost, this`history
      ensures Valid()
      ensures var texts := [title] + EndedLines(response);
              if verbosity == 0 || !allocOk then history == old(history) && log == old(log)
              else
                && history == old(history) + Bracket(id, texts, waitOk, postOk)
                && log == old(log) + Entries(id, texts)
    {
      if verbosity == 0 || !allocOk {
        return;
      }
      // the copy is the process's own, so that it may be split before the wait as well as after it
      var len := |response|;
      var buffer := new char[len + 1](i requires 0 <= i < len + 1 => if i < len then response[i] else NUL);
      CStringIs(buffer[..], 0, response);
      var lines := PrintHeaderLines(buffer);
      Bracketed([title] + lines, waitOk, postOk);
    }
  }
}
