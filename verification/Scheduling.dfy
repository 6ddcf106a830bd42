/** The tick scheduler: `schedule` (kernel/proc.c), `clock_handler` (kernel/clock.c) and the
    blocking path that calls them, over arbitrary runs. */
module Scheduling {

  const MAX_TICKS: nat := 0x7FFFABCD
  const TASK_TTY: nat := 0

  /** The scheduling fields of a process; `runnable` is `p_flags == 0`. */
  datatype Task = Task(ticks: nat, priority: nat, runnable: bool)

  type Tasks = seq<Task>

  ghost predicate Candidate(t: Tasks, i: nat) {
    i < |t| && t[i].runnable && t[i].ticks > 0
  }

  ghost predicate HasCandidate(t: Tasks) {
    exists i: nat :: Candidate(t, i)
  }

  ghost predicate Eligible(t: Tasks, i: nat) {
    i < |t| && t[i].runnable && (t[i].ticks > 0 || t[i].priority > 0)
  }

  /** Some runnable process has ticks left or gets some at the next refill. */
  ghost predicate CanRun(t: Tasks) {
    exists i: nat :: Eligible(t, i)
  }

  /** i is the first of the runnable processes with the most ticks. */
  ghost predicate Picks(t: Tasks, i: nat) {
    && Candidate(t, i)
    && forall j: nat :: j < |t| && t[j].runnable ==> t[j].ticks <= t[i].ticks && (j < i ==> t[j].ticks < t[i].ticks)
  }

  function Refill(t: Tasks): (r: Tasks)
    ensures |r| == |t| && forall i: nat :: i < |t| && !t[i].runnable ==> r[i] == t[i]
  {
    seq(|t|, i requires 0 <= i < |t| => if t[i].runnable then t[i].(ticks := t[i].priority) else t[i])
  }

  lemma RefillGivesCandidate(t: Tasks)
    requires CanRun(t) && !HasCandidate(t)
    ensures HasCandidate(Refill(t))
  {
    var i: nat :| Eligible(t, i);
    assert !Candidate(t, i);
    assert Candidate(Refill(t), i);
  }

  /** Without such a process no number of scan-and-refill passes finds one: `schedule` spins. */
  lemma {:induction false} SpinsForever(t: Tasks, n: nat)
    requires !CanRun(t)
    ensures !CanRun(Passes(t, n)) && !HasCandidate(Passes(t, n))
  {
    var r := Passes(t, n);
    if n > 0 { SpinsForever(t, n - 1); }
    forall i: nat ensures !Eligible(r, i) && !Candidate(r, i) {
      assert n > 0 ==> !Eligible(Passes(t, n - 1), i);
    }
  }

  function Passes(t: Tasks, n: nat): Tasks {
    if n == 0 then t else Refill(Passes(t, n - 1))
  }

  class Scheduler {
    const tasks: array<Task>
    var ready: nat
    var ticks: nat

    constructor (init: seq<Task>)
      requires |init| > 0
      ensures tasks[..] == init && ready == 0 && ticks == 0 && fresh(tasks)
    {
      tasks := new Task[|init|](i requires 0 <= i < |init| => init[i]);
      ready, ticks := 0, 0;
      new;
      assert tasks[..] == init;
    }

    /** One scan of the table: the first process with the most ticks, if any has ticks. */
    method Scan() returns (greatest: nat)
      modifies this`ready
      ensures greatest > 0 <==> HasCandidate(tasks[..])
      ensures greatest > 0 ==> Picks(tasks[..], ready) && tasks[ready].ticks == greatest
    {
      greatest := 0;
      for p := 0 to tasks.Length
        invariant forall j: nat :: j < p && tasks[j].runnable ==> tasks[j].ticks <= greatest
        invariant greatest > 0 ==> ready < p && tasks[ready].runnable && tasks[ready].ticks == greatest
        invariant greatest > 0 ==> forall j: nat :: j < ready && tasks[j].runnable ==> tasks[j].ticks < greatest
      {
        if tasks[p].runnable {
          if tasks[p].ticks > greatest {
            greatest := tasks[p].ticks;
            ready := p;
          }
        }
      }
      assert greatest > 0 ==> Candidate(tasks[..], ready);
    }

    method RefillAll()
      modifies tasks
      ensures tasks[..] == Refill(old(tasks[..]))
      ensures forall p: nat :: p < tasks.Length ==> tasks[p].runnable == old(tasks[p].runnable) && tasks[p].priority == old(tasks[p].priority)
      ensures forall p: nat :: p < tasks.Length ==> tasks[p].ticks == if old(tasks[p].runnable) then old(tasks[p].priority) else old(tasks[p].ticks)
    {
      for p := 0 to tasks.Length
        invariant tasks[..p] == Refill(old(tasks[..]))[..p]
        invariant tasks[p..] == old(tasks[..])[p..]
      {
        assert tasks[p] == old(tasks[..])[p];
        if tasks[p].runnable {
          tasks[p] := tasks[p].(ticks := tasks[p].priority);
        }
      }
    }

    /** Ends within two passes, on the first runnable process of maximal ticks; it can end only
        when some runnable process has ticks or a priority (see SpinsForever). */
    method Schedule() returns (ghost passes: nat)
      requires CanRun(tasks[..])
      modifies this`ready, tasks
      ensures passes == if HasCandidate(old(tasks[..])) then 1 else 2
      ensures tasks[..] == if HasCandidate(old(tasks[..])) then old(tasks[..]) else Refill(old(tasks[..]))
      ensures forall p: nat :: p < tasks.Length && !old(tasks[p].runnable) ==> tasks[p] == old(tasks[p])
      ensures Picks(tasks[..], ready)
    {
      ghost var t := tasks[..];
      var greatest: nat := 0;
      passes := 0;
      while greatest == 0
        invariant greatest == 0 && passes == 0 ==> tasks[..] == t
        invariant greatest == 0 && passes > 0 ==> passes == 1 && !HasCandidate(t) && tasks[..] == Refill(t)
        invariant greatest > 0 ==> passes == if HasCandidate(t) then 1 else 2
        invariant greatest > 0 ==> Picks(tasks[..], ready) && tasks[..] == if HasCandidate(t) then t else Refill(t)
        decreases if greatest > 0 then 0 else 2 - passes
      {
        greatest := Scan();
        passes := passes + 1;
        if !HasCandidate(t) { RefillGivesCandidate(t); }
        if greatest == 0 {
          RefillAll();
        }
      }
    }

    /** The clock interrupt; `wake` says that a pressed key made TTY runnable (`inform_int`). */
    method ClockHandler(reenter: bool, wake: bool)
      requires ready < tasks.Length
      requires var t := Charge(tasks[..], ready, wake); reenter || t[ready].ticks > 0 || CanRun(t)
      modifies this, tasks
      ensures ticks == (if old(ticks) + 1 >= MAX_TICKS then 0 else old(ticks) + 1)
      ensures var t := Charge(old(tasks[..]), old(ready), wake);
        if reenter || t[old(ready)].ticks > 0 then tasks[..] == t && ready == old(ready)
        else tasks[..] == (if HasCandidate(t) then t else Refill(t)) && Picks(tasks[..], ready)
      ensures forall p: nat :: p < tasks.Length ==>
        && tasks[p].priority == old(tasks[p].priority) && tasks[p].runnable == (old(tasks[p].runnable) || (wake && p == 0))
        && (p != old(ready) && !tasks[p].runnable ==> tasks[p].ticks == old(tasks[p].ticks))
    {
      ticks := ticks + 1;
      if ticks >= MAX_TICKS {
        ticks := 0;
      }
      if tasks[ready].ticks > 0 {
        tasks[ready] := tasks[ready].(ticks := tasks[ready].ticks - 1);
      }
      if wake {
        tasks[TASK_TTY] := tasks[TASK_TTY].(runnable := true);
      }
      assert tasks[..] == Charge(old(tasks[..]), ready, wake);
      if reenter || tasks[ready].ticks > 0 {
        return;
      }
      ghost var _ := Schedule();
    }
  }

  /** One tick charged to the running process, then the wake-up of TTY. */
  function Charge(t: Tasks, ready: nat, wake: bool): (r: Tasks)
    requires ready < |t|
    ensures |r| == |t| && forall i: nat :: i < |t| ==>
      && r[i].priority == t[i].priority && r[i].runnable == (t[i].runnable || (wake && i == 0))
      && (i != ready ==> r[i].ticks == t[i].ticks) && (i == ready && t[i].ticks == 0 ==> r[i].ticks == 0)
      && (i == ready && t[i].ticks > 0 ==> r[i].ticks + 1 == t[i].ticks)
  {
    var u := t[ready := t[ready].(ticks := if t[ready].ticks > 0 then t[ready].ticks - 1 else 0)];
    if wake then
      u[TASK_TTY := u[TASK_TTY].(runnable := true)]
    else u
  }
}
