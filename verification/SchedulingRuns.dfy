/** Fairness of the tick scheduler over runs. */
module SchedulingRuns {
  import opened Scheduling

  // ----- The choice made by one scan

  lemma {:induction false} PickExists(t: Tasks, n: nat) returns (i: nat)
    requires n <= |t| && HasCandidate(t[..n])
    ensures Picks(t[..n], i)
  {
    var u := t[..n - 1];
    assert forall j: nat :: j < n - 1 ==> t[..n][j] == u[j];
    if HasCandidate(u) {
      i := PickExists(t, n - 1);
      if t[n - 1].runnable && t[n - 1].ticks > t[i].ticks { i := n - 1; }
    } else {
      i :| Candidate(t[..n], i);
      forall j: nat | j < n - 1 && t[..n][j].runnable ensures t[..n][j].ticks == 0 {
        assert !Candidate(u, j) && u[j] == t[..n][j];
      }
    }
  }

  /** The process `schedule` ends on when some runnable process has ticks. */
  ghost function PickOf(t: Tasks): (i: nat)
    requires HasCandidate(t)
    ensures Picks(t, i)
  {
    assert exists i: nat :: Picks(t, i) by {
      assert t[..|t|] == t;
      var i := PickExists(t, |t|);
    }
    var i: nat :| Picks(t, i);
    i
  }

  lemma PickUnique(t: Tasks, i: nat, j: nat)
    requires Picks(t, i) && Picks(t, j)
    ensures i == j
  {
  }

  // ----- Charges between two refills, for any mix of ticks, blocking and waking

  /** `charged[p]` counts the ticks charged to p since the last refill; `steady[p]` says that p has
      been runnable all that time. */
  datatype Machine = Machine(tasks: Tasks, ready: nat, charged: seq<nat>, steady: seq<bool>)

  datatype Event = Tick(reenter: bool, wake: bool) | Block | Wake(p: nat)

  ghost predicate WellFormed(m: Machine) {
    |m.charged| == |m.steady| == |m.tasks| && m.ready < |m.tasks|
  }

  ghost predicate ChargesExact(m: Machine)
    requires WellFormed(m)
  {
    forall p: nat :: p < |m.tasks| && m.steady[p] ==>
      m.tasks[p].runnable && m.charged[p] + m.tasks[p].ticks == m.tasks[p].priority
  }

  /** What an event does up to the point where `schedule` is called, if it is. */
  function Effect(m: Machine, e: Event): (r: Machine)
    requires WellFormed(m)
    ensures WellFormed(r)
  {
    match e
    case Tick(_, wake) =>
      m.(tasks := Charge(m.tasks, m.ready, wake),
         charged := m.charged[m.ready := m.charged[m.ready] + if m.tasks[m.ready].ticks > 0 then 1 else 0])
    case Block =>
      m.(tasks := m.tasks[m.ready := m.tasks[m.ready].(runnable := false)], steady := m.steady[m.ready := false])
    case Wake(p) =>
      if p < |m.tasks| then m.(tasks := m.tasks[p := m.tasks[p].(runnable := true)]) else m
  }

  predicate Reschedules(m: Machine, e: Event)
    requires WellFormed(m)
  {
    match e
    case Tick(reenter, _) => !reenter && Effect(m, e).tasks[m.ready].ticks == 0
    case Block => true
    case Wake(_) => false
  }

  ghost function Resched(m: Machine): Machine
    requires WellFormed(m) && CanRun(m.tasks)
  {
    if HasCandidate(m.tasks) then m.(ready := PickOf(m.tasks))
    else
      RefillGivesCandidate(m.tasks);
      Machine(Refill(m.tasks), PickOf(Refill(m.tasks)), seq(|m.tasks|, _ => 0),
              seq(|m.tasks|, p requires 0 <= p < |m.tasks| => m.tasks[p].runnable))
  }

  /** An event that leaves `schedule` spinning is not part of any run. */
  ghost function Step(m: Machine, e: Event): (r: Machine)
    requires WellFormed(m)
    ensures WellFormed(r)
  {
    var u := Effect(m, e);
    if !Reschedules(m, e) then u else if CanRun(u.tasks) then Resched(u) else m
  }

  ghost function Run(m: Machine, es: seq<Event>): (r: Machine)
    requires WellFormed(m)
    ensures WellFormed(r)
  {
    if es == [] then m else Step(Run(m, es[..|es| - 1]), es[|es| - 1])
  }

  ghost predicate Booted(m: Machine) {
    WellFormed(m) && forall p: nat :: p < |m.tasks| ==>
      m.tasks[p].ticks == m.tasks[p].priority && m.charged[p] == 0 && m.steady[p] == m.tasks[p].runnable
  }

  lemma EffectKeepsCharges(m: Machine, e: Event)
    requires WellFormed(m) && ChargesExact(m)
    ensures ChargesExact(Effect(m, e))
  {
    var u := Effect(m, e);
    forall p: nat | p < |u.tasks| && u.steady[p]
      ensures u.tasks[p].runnable && u.charged[p] + u.tasks[p].ticks == u.tasks[p].priority
    {
      assert m.steady[p];
    }
  }

  lemma {:induction false} RunKeepsCharges(m: Machine, es: seq<Event>)
    requires Booted(m)
    ensures ChargesExact(Run(m, es))
  {
    if es != [] {
      RunKeepsCharges(m, es[..|es| - 1]);
      EffectKeepsCharges(Run(m, es[..|es| - 1]), es[|es| - 1]);
    }
  }

  /** Whenever `schedule` refills, every process that stayed runnable since the previous refill has
      been charged exactly its priority. */
  lemma ExactShareAtRefill(m: Machine, es: seq<Event>, e: Event, p: nat)
    requires Booted(m)
    requires var u := Effect(Run(m, es), e);
      Reschedules(Run(m, es), e) && !HasCandidate(u.tasks) && p < |u.tasks| && u.steady[p]
    ensures var u := Effect(Run(m, es), e); u.charged[p] == u.tasks[p].priority
  {
    RunKeepsCharges(m, es);
    EffectKeepsCharges(Run(m, es), e);
    assert !Candidate(Effect(Run(m, es), e).tasks, p);
  }

  // ----- Blocked processes

  /** A block stops the running process and a wake-up readies one; neither touches ticks or priorities. */
  lemma EffectFields(m: Machine, e: Event, p: nat)
    requires WellFormed(m) && p < |m.tasks| && !e.Tick?
    ensures var x, y := m.tasks[p], Effect(m, e).tasks[p];
      && y.ticks == x.ticks && y.priority == x.priority
      && y.runnable == if e.Block? then x.runnable && p != m.ready else x.runnable || e.p == p
  {
  }

  predicate WakesUp(e: Event, p: nat) {
    (e.Wake? && e.p == p) || (e.Tick? && e.wake && p == 0)
  }

  /** A process that is blocked throughout a run, refills included, keeps the ticks it had. */
  lemma {:induction false} BlockedKeepsTicks(m: Machine, es: seq<Event>, p: nat)
    requires WellFormed(m) && p < |m.tasks| && !m.tasks[p].runnable && m.ready != p
    requires forall i :: 0 <= i < |es| ==> !WakesUp(es[i], p)
    ensures var r := Run(m, es); |r.tasks| == |m.tasks| && r.tasks[p] == m.tasks[p] && r.ready != p
  {
    if es != [] {
      var front := es[..|es| - 1];
      BlockedKeepsTicks(m, front, p);
      BlockedStep(Run(m, front), es[|es| - 1], p);
    }
  }

  lemma BlockedStep(m: Machine, e: Event, p: nat)
    requires WellFormed(m) && p < |m.tasks| && !m.tasks[p].runnable && m.ready != p && !WakesUp(e, p)
    ensures var r := Step(m, e); |r.tasks| == |m.tasks| && r.tasks[p] == m.tasks[p] && r.ready != p
  {
    var u := Effect(m, e);
    assert u.tasks[p] == m.tasks[p];
    if Reschedules(m, e) && CanRun(u.tasks) && !HasCandidate(u.tasks) {
      RefillGivesCandidate(u.tasks);
    }
  }

  // ----- The scheduler follows the machine

  /** The event would leave `schedule` spinning. */
  ghost predicate Spins(m: Machine, e: Event)
    requires WellFormed(m)
  {
    Reschedules(m, e) && !CanRun(Effect(m, e).tasks)
  }

  ghost predicate Follows(s: Scheduler, m: Machine)
    reads s, s.tasks
  {
    WellFormed(m) && s.tasks[..] == m.tasks && s.ready == m.ready
  }

  /** `schedule` makes the choice of Resched. */
  method Reschedule(s: Scheduler, ghost m: Machine)
    requires Follows(s, m) && CanRun(m.tasks)
    modifies s, s.tasks
    ensures Follows(s, Resched(m)) && s.ticks == old(s.ticks)
  {
    var _ := s.Schedule();
    PickUnique(s.tasks[..], s.ready, Resched(m).ready);
  }

  /** One event on the real table; a block is followed by `schedule`, a wake-up is not. */
  method Serve(s: Scheduler, e: Event, ghost m: Machine)
    requires Follows(s, m) && !Spins(m, e)
    modifies s, s.tasks
    ensures Follows(s, Step(m, e))
  {
    match e
    case Tick(reenter, wake) =>
      s.ClockHandler(reenter, wake);
      if Reschedules(m, e) {
        PickUnique(s.tasks[..], s.ready, Step(m, e).ready);
      }
    case Block =>
      s.tasks[s.ready] := s.tasks[s.ready].(runnable := false);
      assert s.tasks[..] == Effect(m, e).tasks;
      Reschedule(s, Effect(m, e));
    case Wake(p) =>
      if p < s.tasks.Length {
        s.tasks[p] := s.tasks[p].(runnable := true);
      }
      assert s.tasks[..] == Effect(m, e).tasks;
  }

  /** `schedule` returns at every event of the run. */
  ghost predicate NeverSpins(m: Machine, es: seq<Event>)
    requires WellFormed(m)
  {
    forall i: nat :: i < |es| ==> !Spins(Run(m, es[..i]), es[i])
  }

  /** Over every run in which `schedule` returns, the table and the running process are those of the
      machine whose charges RunKeepsCharges speaks of. */
  method Execute(s: Scheduler, es: seq<Event>, ghost m: Machine)
    requires Follows(s, m) && NeverSpins(m, es)
    modifies s, s.tasks
    ensures Follows(s, Run(m, es))
  {
    for n := 0 to |es|
      invariant Follows(s, Run(m, es[..n]))
    {
      assert es[..n + 1][..n] == es[..n];
      Serve(s, es[n], Run(m, es[..n]));
    }
    assert es[..|es|] == es;
  }

  // ----- Length of a round for a fixed set of runnable processes

  datatype Clock = Clock(tasks: Tasks, ready: nat)

  ghost function TickOnce(c: Clock): Clock
    requires c.ready < |c.tasks|
  {
    var t := Charge(c.tasks, c.ready, false);
    if t[c.ready].ticks > 0 then Clock(t, c.ready)
    else if HasCandidate(t) then Clock(t, PickOf(t))
    else if CanRun(t) then RefillGivesCandidate(t); Clock(Refill(t), PickOf(Refill(t)))
    else c
  }

  ghost function After(c: Clock, n: nat): (r: Clock)
    requires c.ready < |c.tasks|
    ensures r.ready < |r.tasks|
  {
    if n == 0 then c else TickOnce(After(c, n - 1))
  }

  function Ticks(n: nat): seq<Event> {
    seq(n, _ => Tick(false, false))
  }

  /** The clock is the machine on ticks alone. */
  lemma {:induction false} ClockIsRun(m: Machine, n: nat)
    requires WellFormed(m)
    ensures var r := Run(m, Ticks(n)); After(Clock(m.tasks, m.ready), n) == Clock(r.tasks, r.ready)
  {
    if n > 0 {
      ClockIsRun(m, n - 1);
      assert Ticks(n)[..n - 1] == Ticks(n - 1);
      TickIsStep(Run(m, Ticks(n - 1)));
    }
  }

  lemma TickIsStep(m: Machine)
    requires WellFormed(m)
    ensures var r := Step(m, Tick(false, false)); TickOnce(Clock(m.tasks, m.ready)) == Clock(r.tasks, r.ready)
  {
    var t := Charge(m.tasks, m.ready, false);
    if HasCandidate(t) {
      var i: nat :| Candidate(t, i);
      assert Eligible(t, i);
    }
  }

  /** Ticks left among the runnable processes. */
  function Total(t: Tasks): nat {
    if t == [] then 0
    else Total(t[..|t| - 1]) + if t[|t| - 1].runnable then t[|t| - 1].ticks else 0
  }

  function PrioritySum(t: Tasks): nat {
    if t == [] then 0
    else PrioritySum(t[..|t| - 1]) + if t[|t| - 1].runnable then t[|t| - 1].priority else 0
  }

  /** How many of the first n ticks are charged to p. */
  ghost function Served(c: Clock, n: nat, p: nat): nat
    requires c.ready < |c.tasks|
  {
    if n == 0 then 0 else Served(c, n - 1, p) + if After(c, n - 1).ready == p then 1 else 0
  }

  lemma {:induction false} TotalUpdate(t: Tasks, i: nat, x: Task)
    requires i < |t| && t[i].runnable && x.runnable
    ensures Total(t[i := x]) == Total(t) - t[i].ticks + x.ticks
  {
    var u := t[i := x];
    if i == |t| - 1 {
      assert u[..i] == t[..i];
    } else {
      assert u[..|t| - 1] == t[..|t| - 1][i := x];
      TotalUpdate(t[..|t| - 1], i, x);
    }
  }

  lemma {:induction false} TotalZero(t: Tasks)
    ensures Total(t) == 0 <==> !HasCandidate(t)
    decreases |t|
  {
    if t != [] {
      var u := t[..|t| - 1];
      TotalZero(u);
      if Total(t) > 0 {
        if HasCandidate(u) {
          var i: nat :| Candidate(u, i);
          assert Candidate(t, i);
        } else {
          assert Candidate(t, |t| - 1);
        }
      } else {
        forall i: nat ensures !Candidate(t, i) { assert !Candidate(u, i); }
      }
    }
  }

  lemma {:induction false} TotalOfRefill(t: Tasks)
    ensures Total(Refill(t)) == PrioritySum(t)
    decreases |t|
  {
    if t != [] {
      TotalOfRefill(t[..|t| - 1]);
      assert Refill(t)[..|t| - 1] == Refill(t[..|t| - 1]);
    }
  }

  /** Only the tick counts differ, and those only among runnable processes. */
  ghost predicate SameSet(t: Tasks, u: Tasks) {
    |t| == |u| && forall i: nat :: i < |t| ==>
      t[i].runnable == u[i].runnable && t[i].priority == u[i].priority && (!t[i].runnable ==> t[i] == u[i])
  }

  ghost predicate Running(c: Clock) {
    Candidate(c.tasks, c.ready)
  }

  lemma ChargeCounts(c: Clock)
    requires Running(c)
    ensures var t := Charge(c.tasks, c.ready, false); Total(t) == Total(c.tasks) - 1 && SameSet(c.tasks, t)
  {
    TotalUpdate(c.tasks, c.ready, c.tasks[c.ready].(ticks := c.tasks[c.ready].ticks - 1));
  }

  /** Inside a round every tick is charged and no process is refilled. */
  lemma {:induction false} DuringRound(c: Clock, n: nat, p: nat)
    requires Running(c) && n < Total(c.tasks) && p < |c.tasks|
    ensures var a := After(c, n);
      && Running(a) && SameSet(c.tasks, a.tasks) && Total(a.tasks) == Total(c.tasks) - n
      && (c.tasks[p].runnable ==> Served(c, n, p) + a.tasks[p].ticks == c.tasks[p].ticks)
  {
    if n > 0 {
      DuringRound(c, n - 1, p);
      var b := After(c, n - 1);
      ChargeCounts(b);
      TotalZero(Charge(b.tasks, b.ready, false));
    }
  }

  /** The last tick of a round: it was the running process's only one left, and it refills. */
  lemma {:induction false} LastTick(b: Clock, t0: Tasks, p: nat)
    requires Running(b) && Total(b.tasks) == 1 && SameSet(t0, b.tasks) && PrioritySum(t0) > 0
    requires p < |t0| && t0[p].runnable
    ensures TickOnce(b).tasks == Refill(t0) && Picks(Refill(t0), TickOnce(b).ready)
    ensures b.tasks[p].ticks == if b.ready == p then 1 else 0
  {
    ChargeCounts(b);
    var t := Charge(b.tasks, b.ready, false);
    TotalZero(t);
    assert !Candidate(t, b.ready) && !Candidate(t, p);
    assert Refill(t) == Refill(t0);
    TotalOfRefill(t0);
    TotalZero(Refill(t0));
    var i: nat :| Candidate(Refill(t0), i);
    assert Eligible(t, i);
  }

  lemma {:induction false} OneMore(c: Clock, n: nat, p: nat)
    requires c.ready < |c.tasks|
    ensures After(c, n + 1) == TickOnce(After(c, n))
    ensures Served(c, n + 1, p) == Served(c, n, p) + if After(c, n).ready == p then 1 else 0
  {
  }

  lemma {:induction false} RoundEnds(c: Clock, p: nat, k: nat, t0: Tasks)
    requires Running(c) && t0 == c.tasks && p < |t0| && t0[p].runnable && PrioritySum(t0) > 0
    requires k + 1 == Total(t0)
    ensures After(c, k + 1).tasks == Refill(t0)
    ensures Picks(Refill(t0), After(c, k + 1).ready)
    ensures Served(c, k + 1, p) == t0[p].ticks
  {
    DuringRound(c, k, p);
    OneMore(c, k, p);
    LastTick(After(c, k), t0, p);
  }

  /** With the set of runnable processes fixed, the next refill comes after exactly as many ticks as
      the runnable processes had left, each process having been charged exactly what it had. */
  lemma {:induction false} RoundIsExact(c: Clock, p: nat, n: nat)
    requires Running(c) && p < |c.tasks| && c.tasks[p].runnable && PrioritySum(c.tasks) > 0
    requires n == Total(c.tasks)
    ensures After(c, n).tasks == Refill(c.tasks)
    ensures Picks(After(c, n).tasks, After(c, n).ready)
    ensures Served(c, n, p) == c.tasks[p].ticks
  {
    assert n > 0 by { TotalZero(c.tasks); }
    RoundEnds(c, p, n - 1, c.tasks);
  }

  /** From one refill to the next: sum of the priorities in ticks, priority(p) of them for p. */
  lemma {:induction false} RefillToRefill(c: Clock, p: nat)
    requires Running(c) && c.tasks == Refill(c.tasks) && p < |c.tasks| && c.tasks[p].runnable
    ensures var n := PrioritySum(c.tasks);
      After(c, n).tasks == c.tasks && Served(c, n, p) == c.tasks[p].priority
  {
    TotalOfRefill(c.tasks);
    TotalZero(c.tasks);
    RoundIsExact(c, p, PrioritySum(c.tasks));
  }
}
