/** fork, exit and wait (mm/forkexit.c): the handshake between a parent and its children over the
    WAITING and HANGING bits, with the kernel's replies as a log. */
module ForkExit {
  import opened Config

  /** The fields of `struct proc` the handshake uses. */
  datatype Proc = Proc(flags: set<Flag>, parent: int, status: int)

  /** Replies MM sends: a child's exit status, or that there is no child. */
  datatype Reply = Exited(to: nat, child: nat, status: int) | NoChild(to: nat)

  /** The calls MM serves, with the caller. */
  datatype Call = Fork(p: nat) | Exit(p: nat, status: int) | Wait(p: nat)

  predicate Free(x: Proc) { FREE_SLOT in x.flags }
  predicate Hanging(x: Proc) { HANGING in x.flags }
  predicate Waiting(x: Proc) { WAITING in x.flags }
  predicate Alive(x: Proc) { !Free(x) && !Hanging(x) }

  /** The exit statuses reported for slot p, in order. */
  function Reports(log: seq<Reply>, p: nat): seq<int> {
    if log == [] then []
    else
      var r := log[|log| - 1];
      Reports(log[..|log| - 1], p) + if r.Exited? && r.child == p then [r.status] else []
  }

  lemma ReportsAppend(log: seq<Reply>, r: Reply, p: nat)
    ensures Reports(log + [r], p) == Reports(log, p) + if r.Exited? && r.child == p then [r.status] else []
  {
    assert (log + [r])[..|log|] == log;
  }

  // ----- The invariant

  /** Which bits go together: a waiting or exited process is also blocked on its call to MM. */
  ghost predicate FlagsOk(x: Proc) {
    && (Free(x) ==> x.flags == {FREE_SLOT})
    && (Hanging(x) ==> x.flags == {RECEIVING, HANGING})
    && (Waiting(x) ==> x.flags == {RECEIVING, WAITING})
  }

  ghost predicate ParentOk(t: seq<Proc>, i: nat)
    requires i < |t|
  {
    t[i].parent == NO_TASK || (0 <= t[i].parent < |t| && t[i].parent != i && Alive(t[t[i].parent]))
  }

  /** No child that has exited is left hanging by a parent that waits. */
  ghost predicate NobodyMissed(t: seq<Proc>, i: nat)
    requires i < |t|
  {
    Hanging(t[i]) && 0 <= t[i].parent < |t| ==> !Waiting(t[t[i].parent])
  }

  /** The table invariant, except that the slots from `from` on may still name `dead` as parent. */
  ghost predicate InvBut(t: seq<Proc>, dead: int, from: nat) {
    && |t| == NR_SLOTS
    && (forall i: nat {:trigger FlagsOk(t[i])} :: i < NR_SLOTS ==> FlagsOk(t[i]))
    && (forall i: nat {:trigger ParentOk(t, i)} :: i < NR_SLOTS ==> ParentOk(t, i) || (t[i].parent == dead && i >= from))
    && (forall i: nat {:trigger NobodyMissed(t, i)} :: i < NR_SLOTS ==> NobodyMissed(t, i))
    && (forall i: nat {:trigger NativeOk(t, i)} :: i < NR_SLOTS ==> NativeOk(t, i))
  }

  /** Native processes never exit and have no parent; a forked one has a parent. */
  ghost predicate NativeOk(t: seq<Proc>, i: nat)
    requires i < |t|
  {
    if i < FIRST_FORKED then Alive(t[i]) && t[i].parent == NO_TASK else Free(t[i]) || IsPid(t[i].parent)
  }

  ghost predicate TableInv(t: seq<Proc>) {
    InvBut(t, NO_TASK, 0)
  }

  /** Changing slot i to x keeps the invariant under these conditions. */
  lemma Update(t: seq<Proc>, dead: int, from: nat, i: nat, x: Proc)
    requires InvBut(t, dead, from) && i < NR_SLOTS && FlagsOk(x)
    requires x.parent == NO_TASK || (IsPid(x.parent) && x.parent != i && Alive(t[x.parent])) || (x.parent == dead && i >= from)
    requires if i < FIRST_FORKED then Alive(x) && x.parent == NO_TASK else Free(x) || IsPid(x.parent)
    requires Hanging(x) && IsPid(x.parent) && x.parent != i ==> !Waiting(t[x.parent])
    requires Waiting(x) ==> forall j: nat :: j < NR_SLOTS && t[j].parent == i ==> !Hanging(t[j])
    requires !Alive(x) && Alive(t[i]) ==> forall j: nat :: j < NR_SLOTS && t[j].parent == i ==> i == dead && j >= from
    requires x.parent == i ==> i == dead
    ensures InvBut(t[i := x], dead, from)
  {
    var u := t[i := x];
    forall j: nat | j < NR_SLOTS ensures FlagsOk(u[j]) && NativeOk(u, j) {
      assert FlagsOk(t[j]) && NativeOk(t, j);
    }
    forall j: nat | j < NR_SLOTS ensures ParentOk(u, j) || (u[j].parent == dead && j >= from) {
      assert ParentOk(t, j) || (t[j].parent == dead && j >= from);
    }
    forall j: nat | j < NR_SLOTS ensures NobodyMissed(u, j) {
      assert NobodyMissed(t, j);
    }
  }

  /** The lives of slot i: the statuses it exited with are the ones reported, in order and once each,
      but for the one still hanging; and each life begun is reported before the slot is free. */
  ghost predicate LifeOk(x: Proc, i: nat, reports: seq<int>, born: nat, exits: seq<int>) {
    && exits == reports + (if Hanging(x) then [x.status] else [])
    && (i >= FIRST_FORKED ==> born == |reports| + if Free(x) then 0 else 1)
  }

  ghost predicate LivesOk(t: seq<Proc>, log: seq<Reply>, born: seq<nat>, exits: seq<seq<int>>) {
    && |t| == |born| == |exits| == NR_SLOTS
    && forall i: nat {:trigger LifeOk(t[i], i, Reports(log, i), born[i], exits[i])} :: i < NR_SLOTS ==>
         LifeOk(t[i], i, Reports(log, i), born[i], exits[i])
  }

  ghost predicate SameStage(x: Proc, y: Proc) {
    (Hanging(x) <==> Hanging(y)) && (Free(x) <==> Free(y)) && x.status == y.status
  }

  /** Only flags other than FREE_SLOT and HANGING changed, and nothing was reported. */
  lemma SameLives(t: seq<Proc>, u: seq<Proc>, log: seq<Reply>, born: seq<nat>, exits: seq<seq<int>>)
    requires LivesOk(t, log, born, exits) && |u| == |t|
    requires forall i: nat :: i < NR_SLOTS ==> SameStage(t[i], u[i])
    ensures LivesOk(u, log, born, exits)
  {
    forall i: nat | i < NR_SLOTS ensures LifeOk(u[i], i, Reports(log, i), born[i], exits[i]) {
      assert LifeOk(t[i], i, Reports(log, i), born[i], exits[i]);
    }
  }

  /** The exit of c has been reported and its slot is free. */
  lemma LifeReported(t: seq<Proc>, u: seq<Proc>, log: seq<Reply>, r: Reply, born: seq<nat>, exits: seq<seq<int>>)
    requires LivesOk(t, log, born, exits) && |u| == |t|
    requires r.Exited? && r.child < NR_SLOTS && FlagsOk(t[r.child]) && Hanging(t[r.child]) && t[r.child].status == r.status
    requires u[r.child].flags == {FREE_SLOT}
    requires forall i: nat :: i < NR_SLOTS && i != r.child ==> SameStage(t[i], u[i])
    ensures LivesOk(u, log + [r], born, exits)
  {
    forall i: nat | i < NR_SLOTS ensures LifeOk(u[i], i, Reports(log + [r], i), born[i], exits[i]) {
      assert LifeOk(t[i], i, Reports(log, i), born[i], exits[i]);
      ReportsAppend(log, r, i);
    }
  }

  lemma NoReport(log: seq<Reply>, r: Reply, t: seq<Proc>, born: seq<nat>, exits: seq<seq<int>>)
    requires LivesOk(t, log, born, exits) && r.NoChild?
    ensures LivesOk(t, log + [r], born, exits)
  {
    forall i: nat | i < NR_SLOTS ensures LifeOk(t[i], i, Reports(log + [r], i), born[i], exits[i]) {
      assert LifeOk(t[i], i, Reports(log, i), born[i], exits[i]);
      ReportsAppend(log, r, i);
    }
  }

  class ProcTable {
    const procs: array<Proc>
    ghost var log: seq<Reply>
    ghost var born: seq<nat>
    ghost var exits: seq<seq<int>>

    ghost predicate Histories()
      reads this, procs
    {
      procs.Length == NR_SLOTS && LivesOk(procs[..], log, born, exits)
    }

    ghost predicate Valid()
      reads this, procs
    {
      procs.Length == NR_SLOTS && TableInv(procs[..]) && Histories()
    }

    /** The table at boot: nine native processes without a parent, the rest free. */
    constructor ()
      ensures Valid() && Abstract() == Boot() && fresh(procs)
      ensures forall i: nat :: i < NR_SLOTS ==> procs[..][i] == if i < FIRST_FORKED then Proc({}, NO_TASK, 0) else Proc({FREE_SLOT}, 0, 0)
    {
      procs := new Proc[NR_SLOTS](i => if i < FIRST_FORKED then Proc({}, NO_TASK, 0) else Proc({FREE_SLOT}, 0, 0));
      log, born, exits := [], seq(NR_SLOTS, _ => 0), seq(NR_SLOTS, _ => []);
    }

    method Set(i: nat, x: Proc)
      requires i < procs.Length
      modifies procs
      ensures procs[..] == old(procs[..])[i := x]
    {
      procs[i] := x;
    }

    /** cleanup: the exit status goes to the parent, which waits for it, and the slot is released. */
    method Cleanup(i: nat, to: nat)
      requires i < procs.Length == NR_SLOTS && to < NR_SLOTS && to != i && procs[..][i].parent == to
      modifies this`log, procs
      ensures log == old(log) + [Exited(to, i, old(procs[..])[i].status)]
      ensures procs[..] == Cleaned(old(procs[..]), i, to)
    {
      log := log + [Exited(to, i, procs[i].status)];
      ghost var t := procs[..];
      assert procs[i] == t[i] && procs[to] == t[to];
      Set(to, procs[to].(flags := procs[to].flags - {RECEIVING}));
      assert procs[i] == procs[..][i];
      Set(i, procs[i].(flags := {FREE_SLOT}));
    }

    /** do_fork with the reply to the caller; the child goes to the first free slot. */
    method DoFork(p: nat) returns (ok: bool, child: nat)
      requires Valid() && p < NR_SLOTS && procs[..][p].flags == {RECEIVING}
      modifies this`born, procs
      ensures Valid()
      ensures ok <==> exists i: nat :: i < NR_SLOTS && Free(old(procs[..])[i])
      ensures ok ==> FIRST_FORKED <= child < NR_SLOTS && Free(old(procs[..])[child]) && procs[..] == Forked(old(procs[..]), p, child)
      ensures ok ==> forall i: nat :: i < child ==> !Free(old(procs[..])[i])
      ensures ok ==> procs[..][child].flags == {} && procs[..][child].parent == p && procs[..][p].flags == {}
      ensures forall i: nat :: i < NR_SLOTS && i != p && (ok ==> i != child) ==> procs[..][i] == old(procs[..])[i]
      ensures !ok ==> procs[..] == old(procs[..])[p := old(procs[..])[p].(flags := {})]
      ensures born == if ok then old(born)[child := old(born)[child] + 1] else old(born)
      ensures forall x: nat :: Stranded(old(procs[..]), x) ==> Stranded(procs[..], x)
    {
      ghost var t := procs[..];
      child := 0;
      while child < NR_SLOTS && procs[child].flags != {FREE_SLOT}
        invariant child <= NR_SLOTS && forall i: nat :: i < child ==> !Free(t[i])
        decreases NR_SLOTS - child
      {
        assert FlagsOk(t[child]);
        child := child + 1;
      }
      ok := child < NR_SLOTS;
      var x := procs[p];
      assert x == t[p] && ParentOk(t, p) && NativeOk(t, p);
      assert x.flags - {RECEIVING} == {};
      Set(p, x.(flags := x.flags - {RECEIVING}));
      if ok {
        assert NativeOk(t, child);
        assert child >= FIRST_FORKED;
        ForkKeepsInv(t, p, child);
        Set(child, Proc({}, p, x.status));
        born := born[child := born[child] + 1];
      } else {
        Update(t, NO_TASK, 0, p, x.(flags := {}));
      }
      forall i: nat | i < NR_SLOTS ensures LifeOk(procs[..][i], i, Reports(log, i), born[i], exits[i]) {
        assert old(LifeOk(procs[..][i], i, Reports(log, i), born[i], exits[i]));
      }
    }

    /** The first half of do_exit: the report to a waiting parent, or the HANGING bit. */
    method EndLife(p: nat, q: nat, status: int)
      requires Valid() && FIRST_FORKED <= p < NR_SLOTS && procs[..][p].flags == {RECEIVING} && procs[..][p].parent == q < NR_SLOTS && p != q
      modifies this`log, this`exits, procs
      ensures InvBut(procs[..], p, 0) && Histories()
      ensures procs[..] == Ended(old(procs[..]), p, q, status)
      ensures log == (if Waiting(old(procs[..])[q]) then old(log) + [Exited(q, p, status)] else old(log))
      ensures exits == old(exits)[p := old(exits)[p] + [status]]
    {
      ghost var t := procs[..];
      assert ParentOk(t, p) && FlagsOk(t[q]) && NativeOk(t, q);
      EndKeepsInv(t, p, q, status);
      var x := procs[p];
      assert x == t[p];
      Set(p, x.(status := status));
      if WAITING in procs[q].flags {
        assert procs[q] == t[q];
        Set(q, procs[q].(flags := procs[q].flags - {WAITING}));
        Cleanup(p, q);
        assert procs[..] == Ended(t, p, q, status);
      } else {
        assert procs[q] == t[q];
        Set(p, x.(status := status, flags := x.flags + {HANGING}));
        assert procs[..] == Ended(t, p, q, status);
      }
      LifeEnded(t, p, q, status, old(log), born, exits);
      exits := exits[p := exits[p] + [status]];
    }

    /** One turn of the second half of do_exit: a child of p becomes INIT's, which may be waiting. */
    method Adopt(p: nat, i: nat)
      requires procs.Length == NR_SLOTS && InvBut(procs[..], p, i) && Histories() && i < NR_SLOTS
      requires FIRST_FORKED <= p < NR_SLOTS && !Alive(procs[..][p]) && procs[..][p].parent != p
      modifies this`log, procs
      ensures InvBut(procs[..], p, i + 1) && Histories()
      ensures procs[..] == AdoptStep(old(procs[..]), p, i)
      ensures log == old(log) + AdoptReport(old(procs[..]), p, i)
    {
      ghost var t := procs[..];
      assert procs[i] == t[i] && NativeOk(t, i) && NativeOk(t, INIT) && FlagsOk(t[INIT]) && FlagsOk(t[i]);
      AdoptKeepsInv(t, p, i);
      if procs[i].parent == p {
        Set(i, procs[i].(parent := INIT));
        assert procs[..][INIT] == t[INIT] == procs[INIT] && procs[..][i] == procs[i];
        if WAITING in procs[INIT].flags && HANGING in procs[i].flags {
          Set(INIT, procs[INIT].(flags := procs[INIT].flags - {WAITING}));
          Cleanup(i, INIT);
        }
      }
      assert procs[..] == AdoptStep(t, p, i);
      if AdoptReport(t, p, i) == [] {
        SameLives(t, procs[..], log, born, exits);
      } else {
        LifeReported(t, procs[..], old(log), Exited(INIT, i, t[i].status), born, exits);
      }
    }

    /** The second half of do_exit. */
    method AdoptAll(p: nat)
      requires procs.Length == NR_SLOTS && InvBut(procs[..], p, 0) && Histories()
      requires FIRST_FORKED <= p < NR_SLOTS && !Alive(procs[..][p]) && procs[..][p].parent != p
      modifies this`log, procs
      ensures Valid()
      ensures procs[..] == Adopted(old(procs[..]), p, NR_SLOTS)
      ensures log == old(log) + AdoptedReport(old(procs[..]), p, NR_SLOTS)
      ensures forall i: nat :: i < NR_SLOTS ==> procs[..][i].parent != p
    {
      ghost var u := procs[..];
      var i := 0;
      AdoptedNone(u, p);
      while i < NR_SLOTS
        invariant i <= NR_SLOTS && InvBut(procs[..], p, i) && Histories()
        invariant procs[..] == Adopted(u, p, i) && log == old(log) + AdoptedReport(u, p, i)
        invariant !Alive(procs[..][p])
      {
        AdoptedNext(u, p, i);
        Adopt(p, i);
        i := i + 1;
      }
      Finish(procs[..], p);
    }

    /** do_exit by a forked process: its status is reported or kept, and INIT takes its children. */
    method DoExit(p: nat, status: int)
      requires Valid() && FIRST_FORKED <= p < NR_SLOTS && procs[..][p].flags == {RECEIVING}
      modifies this`log, this`exits, procs
      ensures Valid()
      ensures var t := old(procs[..]); 0 <= t[p].parent < NR_SLOTS && t[p].parent != p
      ensures var t := old(procs[..]); procs[..] == Adopted(Ended(t, p, t[p].parent, status), p, NR_SLOTS)
      ensures var t := old(procs[..]);
              log == old(log) + (if Waiting(t[t[p].parent]) then [Exited(t[p].parent, p, status)] else [])
                   + AdoptedReport(Ended(t, p, t[p].parent, status), p, NR_SLOTS)
      ensures exits == old(exits)[p := old(exits)[p] + [status]]
      ensures forall i: nat :: i < NR_SLOTS ==> procs[..][i].parent != p
      ensures forall x: nat :: Stranded(old(procs[..]), x) ==> Stranded(procs[..], x)
    {
      ghost var t := procs[..];
      assert NativeOk(t, p) && ParentOk(t, p) && procs[p] == t[p];
      var q := procs[p].parent;
      EndLife(p, q, status);
      AdoptAll(p);
      forall x: nat | Stranded(t, x) ensures Stranded(procs[..], x) {
        ExitKeepsStranded(t, p, q, status, x);
      }
    }

    /** do_wait: a child that has exited is reaped; else the caller waits if any slot names it as
        parent, and is told that there is no child if none does. */
    method DoWait(p: nat)
      requires Valid() && p < NR_SLOTS && procs[..][p].flags == {RECEIVING}
      modifies this`log, procs
      ensures Valid()
      ensures var t := old(procs[..]); var c := FirstHanging(t, p, 0);
              if c < NR_SLOTS then c != p && procs[..] == Cleaned(t, c, p) && log == old(log) + [Exited(p, c, t[c].status)]
              else if Named(t, p) then procs[..] == t[p := t[p].(flags := {RECEIVING, WAITING})] && log == old(log)
              else procs[..] == t[p := t[p].(flags := {})] && log == old(log) + [NoChild(p)]
      ensures forall c: nat :: c < NR_SLOTS && old(procs[..])[c].parent == p && NoneExited(old(procs[..]), p) ==>
                procs[..][p].flags == {RECEIVING, WAITING} && log == old(log)
      ensures |log| > |old(log)| && log[|old(log)|].NoChild? ==> forall i: nat :: i < NR_SLOTS ==> old(procs[..])[i].parent != p
      ensures p != INIT ==> (Stranded(procs[..], p) <==> Named(old(procs[..]), p) && Childless(old(procs[..]), p))
      ensures forall x: nat :: Stranded(old(procs[..]), x) ==> Stranded(procs[..], x)
    {
      ghost var t := procs[..];
      var i, children := 0, 0;
      while i < NR_SLOTS && !(procs[i].parent == p && HANGING in procs[i].flags)
        invariant i <= NR_SLOTS && FirstHanging(t, p, 0) >= i
        invariant children > 0 <==> exists j: nat :: j < i && t[j].parent == p
      {
        assert procs[i] == t[i];
        if procs[i].parent == p {
          children := children + 1;
        }
        i := i + 1;
      }
      WaitKeepsInv(t, p);
      WaitStrands(t, p);
      if i < NR_SLOTS {
        assert procs[i] == t[i];
        assert HangingChild(t, p, i) && FlagsOk(t[i]);
        Cleanup(i, p);
        assert HANGING in t[i].flags && log[|old(log)|].Exited?;
        LifeReported(t, procs[..], old(log), Exited(p, i, t[i].status), born, exits);
      } else if children > 0 {
        assert procs[p] == t[p];
        assert t[p].flags + {WAITING} == {RECEIVING, WAITING};
        Set(p, procs[p].(flags := procs[p].flags + {WAITING}));
        SameLives(t, procs[..], log, born, exits);
      } else {
        log := log + [NoChild(p)];
        assert procs[p] == t[p] && t[p].flags - {RECEIVING} == {};
        Set(p, procs[p].(flags := procs[p].flags - {RECEIVING}));
        SameLives(t, procs[..], old(log), born, exits);
        NoReport(old(log), NoChild(p), procs[..], born, exits);
      }
    }

    /** MM's main loop on one call is the abstract step. Only a process that is not blocked calls MM; a
        call by another slot does not happen, nor does a native process exit. */
    method Serve(call: Call)
      requires Valid()
      modifies this`log, this`born, this`exits, procs
      ensures Valid() && Abstract() == StepOf(old(Abstract()), call)
      ensures forall x: nat :: Stranded(old(procs[..]), x) ==> Stranded(procs[..], x)
    {
      var p := call.p;
      if p < NR_SLOTS && procs[p].flags == {} && (call.Exit? ==> p >= FIRST_FORKED) {
        assert procs[p] == procs[..][p];
        CallKeepsInv(procs[..], p, log, born, exits);
        Set(p, procs[p].(flags := {RECEIVING}));
        match call
        case Fork(_) => var _, _ := DoFork(p);
        case Exit(_, status) => DoExit(p, status);
        case Wait(_) => DoWait(p);
      } else {
        assert p < NR_SLOTS ==> procs[p] == procs[..][p];
      }
    }

    /** Over every run of fork, exit and wait, which is the abstract run of the same calls: no exited
        child has a waiting parent, nobody names an exited process as parent, every exit is reported
        once and in order, and who waits without a child waits for ever. */
    method Execute(calls: seq<Call>)
      requires Valid()
      modifies this`log, this`born, this`exits, procs
      ensures Valid() && Abstract() == Run(old(Abstract()), calls)
      ensures forall i: nat, q: nat :: i < NR_SLOTS && q < NR_SLOTS && procs[..][i].parent == q ==>
                Alive(procs[..][q]) && !(Hanging(procs[..][i]) && Waiting(procs[..][q]))
      ensures forall i: nat :: i < NR_SLOTS && !Hanging(procs[..][i]) ==> exits[i] == Reports(log, i)
      ensures forall j: nat :: |old(log)| <= j < |log| && log[j].Exited? ==> GoesToParent(old(Abstract()), calls, log[j])
      ensures forall x: nat :: Stranded(old(procs[..]), x) ==> Stranded(procs[..], x)
    {
      ghost var s := Abstract();
      for k := 0 to |calls|
        invariant Valid() && Abstract() == Run(s, calls[..k])
        invariant forall x: nat :: Stranded(old(procs[..]), x) ==> Stranded(procs[..], x)
      {
        RunNext(s, calls, k);
        Serve(calls[k]);
      }
      assert calls[..|calls|] == calls;
      HandshakeHolds(procs[..], log, born, exits);
      forall j: nat | |old(log)| <= j < |log| && log[j].Exited? ensures GoesToParent(s, calls, log[j]) {
        ReportsReachParents(s, calls, j);
      }
    }

    ghost function Abstract(): State
      reads this, procs
    {
      State(procs[..], log, born, exits)
    }
  }

  lemma HandshakeHolds(t: seq<Proc>, log: seq<Reply>, born: seq<nat>, exits: seq<seq<int>>)
    requires TableInv(t) && LivesOk(t, log, born, exits)
    ensures forall i: nat, q: nat :: i < NR_SLOTS && q < NR_SLOTS && t[i].parent == q ==>
              Alive(t[q]) && !(Hanging(t[i]) && Waiting(t[q]))
    ensures forall i: nat :: i < NR_SLOTS && !Hanging(t[i]) ==> exits[i] == Reports(log, i)
  {
    forall i: nat, q: nat | i < NR_SLOTS && q < NR_SLOTS && t[i].parent == q
      ensures Alive(t[q]) && !(Hanging(t[i]) && Waiting(t[q]))
    {
      assert ParentOk(t, i) && NobodyMissed(t, i);
    }
    forall i: nat | i < NR_SLOTS && !Hanging(t[i]) ensures exits[i] == Reports(log, i) {
      assert LifeOk(t[i], i, Reports(log, i), born[i], exits[i]);
    }
  }

  // ----- Runs of calls

  datatype State = State(table: seq<Proc>, log: seq<Reply>, born: seq<nat>, exits: seq<seq<int>>)

  ghost predicate StateOk(s: State) {
    TableInv(s.table) && |s.born| == |s.exits| == NR_SLOTS
  }

  predicate Possible(t: seq<Proc>, call: Call) {
    call.p < |t| && t[call.p].flags == {} && (call.Exit? ==> call.p >= FIRST_FORKED)
  }

  /** The first free slot from i on; |t| if none. */
  function FirstFree(t: seq<Proc>, i: nat): (c: nat)
    requires i <= |t|
    ensures i <= c <= |t| && (c < |t| ==> Free(t[c]))
    ensures forall j: nat :: i <= j < c ==> !Free(t[j])
    decreases |t| - i
  {
    if i == |t| || Free(t[i]) then i else FirstFree(t, i + 1)
  }

  ghost function ForkStep(s: State, p: nat): State
    requires StateOk(s) && p < NR_SLOTS
  {
    var c := FirstFree(s.table, 0);
    if c < NR_SLOTS then s.(table := Forked(s.table, p, c), born := s.born[c := s.born[c] + 1])
    else s.(table := s.table[p := s.table[p].(flags := {})])
  }

  ghost function ExitStep(s: State, p: nat, status: int): State
    requires StateOk(s) && p < NR_SLOTS && IsPid(s.table[p].parent) && s.table[p].parent != p
  {
    var t, q := s.table, s.table[p].parent;
    var u := Ended(t, p, q, status);
    State(Adopted(u, p, NR_SLOTS),
          s.log + (if Waiting(t[q]) then [Exited(q, p, status)] else []) + AdoptedReport(u, p, NR_SLOTS),
          s.born, s.exits[p := s.exits[p] + [status]])
  }

  ghost function WaitStep(s: State, p: nat): State
    requires StateOk(s) && p < NR_SLOTS
  {
    s.(table := Waited(s.table, p),
       log := WaitLog(s.table, s.log, p))
  }

  lemma {:induction false} AdoptedInv(t: seq<Proc>, p: nat, k: nat)
    requires InvBut(t, p, 0) && FIRST_FORKED <= p < NR_SLOTS && !Alive(t[p]) && t[p].parent != p && k <= NR_SLOTS
    ensures InvBut(Adopted(t, p, k), p, k) && !Alive(Adopted(t, p, k)[p])
  {
    if k == 0 {
      AdoptedNone(t, p);
    } else {
      AdoptedInv(t, p, k - 1);
      AdoptedNext(t, p, k - 1);
      AdoptKeepsInv(Adopted(t, p, k - 1), p, k - 1);
    }
  }

  lemma ExitKeepsInv(t: seq<Proc>, p: nat, status: int)
    requires TableInv(t) && FIRST_FORKED <= p < NR_SLOTS && t[p].flags == {RECEIVING}
    ensures IsPid(t[p].parent) && t[p].parent != p && TableInv(Adopted(Ended(t, p, t[p].parent, status), p, NR_SLOTS))
  {
    assert NativeOk(t, p) && ParentOk(t, p);
    var q := t[p].parent;
    EndKeepsInv(t, p, q, status);
    AdoptedInv(Ended(t, p, q, status), p, NR_SLOTS);
    Finish(Adopted(Ended(t, p, q, status), p, NR_SLOTS), p);
  }

  lemma ForkStepOk(s: State, p: nat)
    requires StateOk(s) && p < NR_SLOTS && s.table[p].flags == {RECEIVING}
    ensures StateOk(ForkStep(s, p))
  {
    var t, c := s.table, FirstFree(s.table, 0);
    assert ParentOk(t, p) && NativeOk(t, p);
    if c < NR_SLOTS {
      assert NativeOk(t, c);
      ForkKeepsInv(t, p, c);
    } else {
      Update(t, NO_TASK, 0, p, t[p].(flags := {}));
    }
  }

  /** What MM does for one call. */
  ghost function StepOf(s: State, call: Call): (r: State)
    requires StateOk(s)
    ensures StateOk(r)
  {
    if !Possible(s.table, call) then s
    else
      var u := s.(table := s.table[call.p := s.table[call.p].(flags := {RECEIVING})]);
      CallTableInv(s.table, call.p);
      match call
      case Fork(p) => ForkStepOk(u, p); ForkStep(u, p)
      case Exit(p, status) => ExitKeepsInv(u.table, p, status); ExitStep(u, p, status)
      case Wait(p) => WaitKeepsInv(u.table, p); WaitStep(u, p)
  }

  ghost function Run(s: State, calls: seq<Call>): (r: State)
    requires StateOk(s)
    ensures StateOk(r)
  {
    if calls == [] then s else StepOf(Run(s, calls[..|calls| - 1]), calls[|calls| - 1])
  }

  lemma RunNext(s: State, calls: seq<Call>, k: nat)
    requires StateOk(s) && k < |calls|
    ensures Run(s, calls[..k + 1]) == StepOf(Run(s, calls[..k]), calls[k])
  {
    assert calls[..k + 1][..k] == calls[..k];
  }

  /** The report r, made while `call` is served in state s, goes to the parent its child has then: the
      one it had before, or INIT when that one is the process that exits. It carries the status the
      child exited with, and frees its slot. */
  ghost predicate ReportedBy(s: State, call: Call, r: Reply)
    requires StateOk(s)
  {
    && r.Exited? && r.child < NR_SLOTS
    && var was, now := s.table[r.child], StepOf(s, call).table[r.child];
       && (r.to == was.parent || (call.Exit? && was.parent == call.p && r.to == INIT))
       && now.parent == r.to && Free(now) && !Free(was)
       && r.status == if call.Exit? && call.p == r.child then call.status else was.status
  }

  lemma StepReports(s: State, call: Call, j: nat)
    requires StateOk(s) && |s.log| <= j < |StepOf(s, call).log| && StepOf(s, call).log[j].Exited?
    ensures ReportedBy(s, call, StepOf(s, call).log[j])
  {
    CallTableInv(s.table, call.p);
    var u := s.table[call.p := s.table[call.p].(flags := {RECEIVING})];
    match call
    case Fork(_) =>
    case Exit(p, status) =>
      ExitKeepsInv(u, p, status);
      ExitReports(u, p, status);
    case Wait(p) =>
      WaitKeepsInv(u, p);
      assert FlagsOk(u[FirstHanging(u, p, 0)]);
  }

  lemma ExitReports(t: seq<Proc>, p: nat, status: int)
    requires TableInv(t) && FIRST_FORKED <= p < NR_SLOTS && t[p].flags == {RECEIVING} && IsPid(t[p].parent) && t[p].parent != p
    ensures var q, u := t[p].parent, Ended(t, p, t[p].parent, status); var v := Adopted(u, p, NR_SLOTS);
      && (Waiting(t[q]) ==> Free(v[p]) && v[p].parent == q)
      && (AdoptedReport(u, p, NR_SLOTS) != [] ==>
           var c := FirstHanging(u, p, 0);
           c < NR_SLOTS && c != p && t[c].parent == p && v[c].parent == INIT && Free(v[c]) && !Free(t[c]) && u[c].status == t[c].status)
  {
    var q := t[p].parent;
    var u := Ended(t, p, q, status);
    assert ParentOk(t, p) && ParentOk(t, q) && FlagsOk(t[q]) && NativeOk(t, q);
    if AdoptedReport(u, p, NR_SLOTS) != [] {
      var c := FirstHanging(u, p, 0);
      assert c != p && c != q;
      assert FlagsOk(t[c]);
    }
  }

  /** An exit of p in terms of the slots: its children go to INIT; its parent, if it waits, goes on and
      the slot is free, and if not the slot keeps the status and hangs; INIT, if it waits, goes on
      when it is handed a child that had exited, the first of which is free. Nothing else changes. */
  ghost predicate EndedInFields(t: seq<Proc>, v: seq<Proc>, p: nat, status: int) {
    && |t| == |v| == NR_SLOTS && p < NR_SLOTS && IsPid(t[p].parent)
    && (forall i: nat :: i < NR_SLOTS ==> v[i].parent == if t[i].parent == p then INIT else t[i].parent)
    && (WAITING in t[t[p].parent].flags ==> v[p].flags == {FREE_SLOT} && v[t[p].parent].flags == {})
    && (WAITING !in t[t[p].parent].flags ==> v[p].flags == {RECEIVING, HANGING} && v[p].status == status)
    && (forall i: nat :: i < NR_SLOTS && i != p && i != t[p].parent && i != INIT && !(t[i].parent == p && HANGING in t[i].flags) ==>
          v[i].flags == t[i].flags && v[i].status == t[i].status)
    && (t[p].parent != INIT && !(WAITING in t[INIT].flags && exists i: nat :: i < NR_SLOTS && t[i].parent == p && HANGING in t[i].flags) ==>
          v[INIT].flags == t[INIT].flags)
    && (t[p].parent != INIT && WAITING in t[INIT].flags && (exists i: nat :: i < NR_SLOTS && t[i].parent == p && HANGING in t[i].flags) ==>
          v[INIT].flags == {})
  }

  lemma ExitFields(t: seq<Proc>, p: nat, status: int)
    requires TableInv(t) && FIRST_FORKED <= p < NR_SLOTS && t[p].flags == {RECEIVING} && IsPid(t[p].parent) && t[p].parent != p
    ensures EndedInFields(t, Adopted(Ended(t, p, t[p].parent, status), p, NR_SLOTS), p, status)
  {
    var q := t[p].parent;
    var u := Ended(t, p, q, status);
    var v := Adopted(u, p, NR_SLOTS);
    var c := FirstHanging(u, p, 0);
    assert ParentOk(t, p) && ParentOk(t, q) && FlagsOk(t[q]) && NativeOk(t, q) && FlagsOk(t[INIT]) && NativeOk(t, INIT);
    assert {RECEIVING} + {HANGING} == {RECEIVING, HANGING};
    assert Waiting(t[q]) ==> t[q].flags - {WAITING} - {RECEIVING} == {};
    assert forall i: nat :: i < NR_SLOTS ==> u[i].parent == t[i].parent;
    forall i: nat | i < NR_SLOTS && t[i].parent == p && HANGING in t[i].flags ensures HangingChild(u, p, i) {
      assert i != p && i != q;
    }
    if c < NR_SLOTS {
      assert HangingChild(u, p, c) && c != p && c != q;
      assert t[c].parent == p && HANGING in t[c].flags;
    }
  }

  /** No slot that names p as parent has exited and not been reported. */
  ghost predicate NoneExited(t: seq<Proc>, p: nat) {
    forall i: nat :: i < |t| && t[i].parent == p ==> HANGING !in t[i].flags
  }

  /** Slot c is the first child of p that has exited. */
  ghost predicate FirstExited(t: seq<Proc>, p: nat, c: nat) {
    c < |t| && t[c].parent == p && HANGING in t[c].flags && forall i: nat :: i < c && t[i].parent == p ==> HANGING !in t[i].flags
  }

  /** A wait by p in terms of the slots: a child that has exited is reported, the first one, and freed;
      else p waits if a slot names it, and is told that there is no child if none does. */
  ghost predicate WaitedInFields(t: seq<Proc>, log: seq<Reply>, v: seq<Proc>, after: seq<Reply>, p: nat) {
    && |t| == |v| == NR_SLOTS && p < NR_SLOTS
    && (forall i: nat :: i < NR_SLOTS ==> v[i].parent == t[i].parent && v[i].status == t[i].status)
    && (forall c: nat :: FirstExited(t, p, c) ==>
          && v[p].flags == {} && v[c].flags == {FREE_SLOT} && after == log + [Exited(p, c, t[c].status)]
          && forall i: nat :: i < NR_SLOTS && i != p && i != c ==> v[i] == t[i])
    && ((forall i: nat :: i < NR_SLOTS && t[i].parent == p ==> HANGING !in t[i].flags) ==>
          && (forall i: nat :: i < NR_SLOTS && i != p ==> v[i] == t[i])
          && (forall i: nat :: i < NR_SLOTS && t[i].parent == p ==> v[p].flags == {RECEIVING, WAITING} && after == log)
          && ((forall i: nat :: i < NR_SLOTS ==> t[i].parent != p) ==> v[p].flags == {} && after == log + [NoChild(p)]))
  }

  ghost function WaitLog(t: seq<Proc>, log: seq<Reply>, p: nat): seq<Reply> {
    var c := FirstHanging(t, p, 0);
    log + if c < |t| then [Exited(p, c, t[c].status)] else if Named(t, p) then [] else [NoChild(p)]
  }

  lemma WaitFields(t: seq<Proc>, log: seq<Reply>, p: nat)
    requires TableInv(t) && p < NR_SLOTS && t[p].flags == {RECEIVING}
    ensures WaitedInFields(t, log, Waited(t, p), WaitLog(t, log, p), p)
  {
    var d, v := FirstHanging(t, p, 0), Waited(t, p);
    assert {RECEIVING} - {RECEIVING} == {};
    if d < NR_SLOTS {
      assert HangingChild(t, p, d) && ParentOk(t, d);
      forall c: nat | FirstExited(t, p, c) ensures c == d {
        assert HangingChild(t, p, c);
      }
    } else {
      forall i: nat | i < NR_SLOTS ensures !HangingChild(t, p, i) {
      }
      forall c: nat | FirstExited(t, p, c) ensures false {
        assert HangingChild(t, p, c);
      }
      forall i: nat | i < NR_SLOTS && t[i].parent == p ensures Named(t, p) {
      }
      assert log + [] == log;
    }
  }

  /** Some call of the run made this report, to the parent of that moment. */
  ghost predicate GoesToParent(s: State, calls: seq<Call>, r: Reply)
    requires StateOk(s)
  {
    exists i: nat :: ReportedAt(s, calls, i, r)
  }

  ghost predicate ReportedAt(s: State, calls: seq<Call>, i: nat, r: Reply)
    requires StateOk(s)
  {
    i < |calls| && ReportedBy(Run(s, calls[..i]), calls[i], r)
  }

  lemma ReportedEarlier(s: State, calls: seq<Call>, n: nat, i: nat, r: Reply)
    requires StateOk(s) && n <= |calls| && ReportedAt(s, calls[..n], i, r)
    ensures ReportedAt(s, calls, i, r)
  {
    assert calls[..n][..i] == calls[..i];
  }

  lemma LogGrows(s: State, call: Call)
    requires StateOk(s)
    ensures s.log <= StepOf(s, call).log
  {
  }

  lemma {:induction false} ReportsReachParents(s: State, calls: seq<Call>, j: nat)
    requires StateOk(s) && |s.log| <= j < |Run(s, calls).log| && Run(s, calls).log[j].Exited?
    ensures GoesToParent(s, calls, Run(s, calls).log[j])
  {
    var n := |calls| - 1;
    var front := calls[..n];
    var u := Run(s, front);
    LogGrows(u, calls[n]);
    if j < |u.log| {
      ReportsReachParents(s, front, j);
      var i: nat :| ReportedAt(s, front, i, u.log[j]);
      ReportedEarlier(s, calls, n, i, u.log[j]);
    } else {
      StepReports(u, calls[n], j);
      assert ReportedAt(s, calls, n, Run(s, calls).log[j]);
    }
  }

  // ----- What the operations do to the table

  /** A new child in slot c, and the caller's call answered. */
  ghost function Forked(t: seq<Proc>, p: nat, c: nat): seq<Proc>
    requires p < |t| && c < |t|
  {
    t[p := t[p].(flags := t[p].flags - {RECEIVING})][c := Proc({}, p, t[p].status)]
  }

  lemma CallTableInv(t: seq<Proc>, p: nat)
    requires TableInv(t)
    ensures p < NR_SLOTS && t[p].flags == {} ==> TableInv(t[p := t[p].(flags := {RECEIVING})])
  {
    if p < NR_SLOTS && t[p].flags == {} {
      assert ParentOk(t, p) && NativeOk(t, p);
      Update(t, NO_TASK, 0, p, t[p].(flags := {RECEIVING}));
    }
  }

  /** A process that calls MM is blocked until the reply. */
  lemma CallKeepsInv(t: seq<Proc>, p: nat, log: seq<Reply>, born: seq<nat>, exits: seq<seq<int>>)
    requires TableInv(t) && LivesOk(t, log, born, exits) && p < NR_SLOTS && t[p].flags == {}
    ensures var u := t[p := t[p].(flags := {RECEIVING})];
            TableInv(u) && LivesOk(u, log, born, exits) && forall x: nat :: Stranded(t, x) ==> Stranded(u, x)
  {
    var u := t[p := t[p].(flags := {RECEIVING})];
    CallTableInv(t, p);
    SameLives(t, u, log, born, exits);
    assert forall j: nat :: j < NR_SLOTS ==> u[j].parent == t[j].parent && (Free(t[j]) <==> Free(u[j]));
  }

  lemma ForkKeepsInv(t: seq<Proc>, p: nat, c: nat)
    requires TableInv(t) && p < NR_SLOTS && FIRST_FORKED <= c < NR_SLOTS && Free(t[c]) && t[p].flags == {RECEIVING}
    ensures TableInv(Forked(t, p, c))
  {
    var x := t[p].(flags := t[p].flags - {RECEIVING});
    assert ParentOk(t, p) && NativeOk(t, p);
    Update(t, NO_TASK, 0, p, x);
    Update(t[p := x], NO_TASK, 0, c, Proc({}, p, t[p].status));
  }

  /** The parent q of i waited: it gets the report and goes on, and slot i is released. */
  lemma ReportKeepsInv(t: seq<Proc>, dead: int, from: nat, q: nat, i: nat)
    requires InvBut(t, dead, from) && q < NR_SLOTS && FIRST_FORKED <= i < NR_SLOTS && q != i
    requires t[q].flags == {RECEIVING} && t[i].parent == q
    requires Alive(t[i]) ==> forall j: nat :: j < NR_SLOTS && t[j].parent == i ==> i == dead && j >= from
    ensures InvBut(Cleaned(t, i, q), dead, from)
  {
    var x := t[q].(flags := t[q].flags - {RECEIVING});
    assert ParentOk(t, q) || (t[q].parent == dead && q >= from);
    assert NativeOk(t, q) && ParentOk(t, i);
    Update(t, dead, from, q, x);
    Update(t[q := x], dead, from, i, t[i].(flags := {FREE_SLOT}));
  }

  /** Process p has ended with `status`: reported to its parent q if q waits, hanging if not. */
  ghost function Ended(t: seq<Proc>, p: nat, q: nat, status: int): seq<Proc>
    requires p < |t| && q < |t| && p != q
  {
    if Waiting(t[q]) then
      t[q := t[q].(flags := t[q].flags - {WAITING} - {RECEIVING})][p := t[p].(flags := {FREE_SLOT}, status := status)]
    else t[p := t[p].(flags := t[p].flags + {HANGING}, status := status)]
  }

  lemma LifeEnded(t: seq<Proc>, p: nat, q: nat, status: int, log: seq<Reply>, born: seq<nat>, exits: seq<seq<int>>)
    requires LivesOk(t, log, born, exits) && p < NR_SLOTS && q < NR_SLOTS && p != q && t[p].flags == {RECEIVING} && FlagsOk(t[q])
    ensures LivesOk(Ended(t, p, q, status), if Waiting(t[q]) then log + [Exited(q, p, status)] else log, born, exits[p := exits[p] + [status]])
  {
    var u, es := Ended(t, p, q, status), exits[p := exits[p] + [status]];
    var after := if Waiting(t[q]) then log + [Exited(q, p, status)] else log;
    forall i: nat | i < NR_SLOTS ensures LifeOk(u[i], i, Reports(after, i), born[i], es[i]) {
      assert LifeOk(t[i], i, Reports(log, i), born[i], exits[i]);
      ReportsAppend(log, Exited(q, p, status), i);
    }
  }

  /** From now on only the children of p may name a parent that is gone. */
  lemma EndKeepsInv(t: seq<Proc>, p: nat, q: nat, status: int)
    requires TableInv(t) && FIRST_FORKED <= p < NR_SLOTS && t[p].flags == {RECEIVING} && t[p].parent == q < NR_SLOTS
    ensures p != q && InvBut(Ended(t, p, q, status), p, 0)
  {
    assert ParentOk(t, p) && ParentOk(t, q) && FlagsOk(t[q]) && NativeOk(t, q);
    Weaken(t, p);
    if Waiting(t[q]) {
      var x := t[q].(flags := t[q].flags - {WAITING} - {RECEIVING});
      Update(t, p, 0, q, x);
      Update(t[q := x], p, 0, p, t[p].(flags := {FREE_SLOT}, status := status));
    } else {
      Update(t, p, 0, p, t[p].(flags := t[p].flags + {HANGING}, status := status));
    }
  }

  lemma Weaken(t: seq<Proc>, p: nat)
    requires TableInv(t)
    ensures InvBut(t, p, 0)
  {
    forall i: nat | i < NR_SLOTS ensures ParentOk(t, i) {
    }
  }

  ghost function Cleaned(t: seq<Proc>, i: nat, to: nat): seq<Proc>
    requires i < |t| && to < |t| && i != to
  {
    t[to := t[to].(flags := t[to].flags - {RECEIVING})][i := t[i].(flags := {FREE_SLOT})]
  }

  // ----- The second half of do_exit

  predicate HangingChild(t: seq<Proc>, p: nat, i: nat)
    requires i < |t|
  {
    t[i].parent == p && Hanging(t[i])
  }

  /** The first child of p, from slot `from` on, that has exited and not been reported; |t| if none. */
  function FirstHanging(t: seq<Proc>, p: nat, from: nat): (c: nat)
    requires from <= |t|
    ensures from <= c <= |t|
    ensures forall j: nat :: from <= j < c ==> !HangingChild(t, p, j)
    ensures c < |t| ==> HangingChild(t, p, c)
    decreases |t| - from
  {
    if from == |t| || HangingChild(t, p, from) then from else FirstHanging(t, p, from + 1)
  }

  /** Slot i is handed to INIT if it names p as its parent. */
  ghost function AdoptStep(t: seq<Proc>, p: nat, i: nat): (u: seq<Proc>)
    requires |t| == NR_SLOTS && i < |t|
    ensures |u| == |t|
  {
    if t[i].parent != p then t
    else if Waiting(t[INIT]) && Hanging(t[i]) then
      t[INIT := t[INIT].(flags := t[INIT].flags - {WAITING} - {RECEIVING})][i := t[i].(parent := INIT, flags := {FREE_SLOT})]
    else t[i := t[i].(parent := INIT)]
  }

  ghost function AdoptReport(t: seq<Proc>, p: nat, i: nat): seq<Reply>
    requires |t| == NR_SLOTS && i < |t|
  {
    if t[i].parent == p && Waiting(t[INIT]) && Hanging(t[i]) then [Exited(INIT, i, t[i].status)] else []
  }

  /** INIT waits, and one of the first k slots is a child of p it can reap at once. */
  ghost predicate Reaps(t: seq<Proc>, p: nat, k: nat)
    requires |t| == NR_SLOTS
  {
    Waiting(t[INIT]) && FirstHanging(t, p, 0) < k
  }

  /** The table when the children of p among the first k slots are INIT's: of those that had exited
      INIT has reaped at most the first one. */
  ghost function Adopted(t: seq<Proc>, p: nat, k: nat): (u: seq<Proc>)
    requires |t| == NR_SLOTS
    ensures |u| == |t|
  {
    seq(|t|, j requires 0 <= j < |t| => AdoptedSlot(t, p, k, j))
  }

  ghost function AdoptedSlot(t: seq<Proc>, p: nat, k: nat, j: nat): Proc
    requires |t| == NR_SLOTS && j < |t|
  {
    var x := if j < k && t[j].parent == p then t[j].(parent := INIT) else t[j];
    if Reaps(t, p, k) && j == FirstHanging(t, p, 0) then x.(flags := {FREE_SLOT})
    else if Reaps(t, p, k) && j == INIT then x.(flags := {})
    else x
  }

  ghost function AdoptedReport(t: seq<Proc>, p: nat, k: nat): seq<Reply>
    requires |t| == NR_SLOTS && k <= NR_SLOTS
  {
    var c := FirstHanging(t, p, 0);
    if Reaps(t, p, k) then [Exited(INIT, c, t[c].status)] else []
  }

  lemma AdoptedNone(t: seq<Proc>, p: nat)
    requires |t| == NR_SLOTS
    ensures Adopted(t, p, 0) == t && AdoptedReport(t, p, 0) == []
  {
  }

  lemma AdoptedNext(t: seq<Proc>, p: nat, k: nat)
    requires InvBut(t, p, 0) && k < NR_SLOTS && p != INIT && p < NR_SLOTS && !Alive(t[p]) && t[p].parent != p
    ensures AdoptStep(Adopted(t, p, k), p, k) == Adopted(t, p, k + 1)
    ensures AdoptedReport(t, p, k) + AdoptReport(Adopted(t, p, k), p, k) == AdoptedReport(t, p, k + 1)
    ensures Adopted(t, p, k)[p].parent != p && !Alive(Adopted(t, p, k + 1)[p])
  {
    assert FlagsOk(t[INIT]) && NativeOk(t, INIT);
    var c := FirstHanging(t, p, 0);
    if c < NR_SLOTS {
      assert NativeOk(t, c);
    }
    var u, v := AdoptStep(Adopted(t, p, k), p, k), Adopted(t, p, k + 1);
    assert t[INIT].flags == {RECEIVING, WAITING} ==> t[INIT].flags - {WAITING} - {RECEIVING} == {};
    assert Adopted(t, p, k)[k] == t[k] && FlagsOk(t[k]);
    assert HangingChild(t, p, k) ==> c <= k;
    assert Reaps(t, p, k + 1) <==> Reaps(t, p, k) || (Waiting(t[INIT]) && c == k);
    forall j: nat | j < NR_SLOTS ensures u[j] == v[j] {
    }
  }

  lemma AdoptKeepsInv(t: seq<Proc>, p: nat, i: nat)
    requires InvBut(t, p, i) && i < NR_SLOTS && FIRST_FORKED <= p < NR_SLOTS && !Alive(t[p]) && t[p].parent != p
    ensures InvBut(AdoptStep(t, p, i), p, i + 1)
  {
    assert NativeOk(t, i) && NativeOk(t, INIT) && FlagsOk(t[INIT]) && FlagsOk(t[i]);
    var u := AdoptStep(t, p, i);
    if t[i].parent != p {
      assert ParentOk(t, i);
    } else if Waiting(t[INIT]) && Hanging(t[i]) {
      var x := t[INIT].(flags := t[INIT].flags - {WAITING} - {RECEIVING});
      Update(t, p, i, INIT, x);
      Update(t[INIT := x], p, i, i, t[i].(parent := INIT, flags := {FREE_SLOT}));
    } else {
      forall j: nat | j < NR_SLOTS && t[j].parent == i ensures Waiting(t[i]) ==> !Hanging(t[j]) {
        assert NobodyMissed(t, j);
      }
      Update(t, p, i, i, t[i].(parent := INIT));
    }
    assert InvBut(u, p, i) && u[i].parent != p;
    forall j: nat | j < NR_SLOTS ensures ParentOk(u, j) || (u[j].parent == p && j >= i + 1) {
      assert ParentOk(u, j) || (u[j].parent == p && j >= i);
    }
  }

  /** With every slot visited the invariant holds again, and no slot names p. */
  lemma Finish(t: seq<Proc>, p: nat)
    requires InvBut(t, p, NR_SLOTS) && p < NR_SLOTS && !Alive(t[p])
    ensures TableInv(t)
    ensures forall i: nat :: i < NR_SLOTS ==> t[i].parent != p
  {
    forall i: nat | i < NR_SLOTS ensures ParentOk(t, i) && t[i].parent != p {
      assert ParentOk(t, i);
    }
  }

  // ----- wait

  /** Some slot, free or not, names p as its parent. */
  predicate Named(t: seq<Proc>, p: nat) {
    exists j: nat :: j < |t| && t[j].parent == p
  }

  /** No process, running or exited, is a child of p. */
  predicate Childless(t: seq<Proc>, p: nat) {
    forall j: nat :: j < |t| && t[j].parent == p ==> Free(t[j])
  }

  /** Process p waits for a child it does not have. INIT is not meant: it may still adopt one. */
  predicate Stranded(t: seq<Proc>, p: nat) {
    p < |t| && p != INIT && Waiting(t[p]) && Childless(t, p)
  }

  /** The table after do_wait. */
  ghost function Waited(t: seq<Proc>, p: nat): seq<Proc>
    requires p < |t|
  {
    var c := FirstHanging(t, p, 0);
    if c < |t| then if c == p then t else Cleaned(t, c, p)
    else if Named(t, p) then t[p := t[p].(flags := {RECEIVING, WAITING})]
    else t[p := t[p].(flags := {})]
  }

  /** Exactly a caller with no child whose number still stands in a free slot is left waiting for
      nothing. */
  lemma WaitStrands(t: seq<Proc>, p: nat)
    requires TableInv(t) && p < NR_SLOTS && t[p].flags == {RECEIVING}
    ensures p != INIT ==> (Stranded(Waited(t, p), p) <==> Named(t, p) && Childless(t, p))
    ensures forall x: nat :: Stranded(t, x) ==> Stranded(Waited(t, p), x)
  {
    var c, u := FirstHanging(t, p, 0), Waited(t, p);
    if c < NR_SLOTS {
      assert FlagsOk(t[c]) && ParentOk(t, c);
      assert u[p].flags == t[p].flags - {RECEIVING} && !Childless(t, p);
    } else {
      assert forall j: nat :: j < NR_SLOTS ==> u[j].parent == t[j].parent && (Free(u[j]) <==> Free(t[j]));
      assert Waiting(u[p]) <==> Named(t, p);
    }
    forall x: nat | Stranded(t, x) ensures Stranded(u, x) {
      assert forall j: nat :: j < NR_SLOTS ==> u[j].parent == t[j].parent && (Free(t[j]) ==> Free(u[j]));
    }
  }

  lemma WaitKeepsInv(t: seq<Proc>, p: nat)
    requires TableInv(t) && p < NR_SLOTS && t[p].flags == {RECEIVING}
    ensures var c := FirstHanging(t, p, 0);
            if c < NR_SLOTS then c != p && c >= FIRST_FORKED && TableInv(Cleaned(t, c, p))
            else TableInv(t[p := t[p].(flags := {})]) && TableInv(t[p := t[p].(flags := {RECEIVING, WAITING})])
  {
    var c := FirstHanging(t, p, 0);
    assert ParentOk(t, p) && NativeOk(t, p);
    if c < NR_SLOTS {
      assert NativeOk(t, c) && ParentOk(t, c);
      forall j: nat | j < NR_SLOTS ensures t[j].parent != c {
        assert ParentOk(t, j);
      }
      ReportKeepsInv(t, NO_TASK, 0, p, c);
    } else {
      forall j: nat | j < NR_SLOTS && t[j].parent == p ensures !Hanging(t[j]) {
        assert !HangingChild(t, p, j);
      }
      Update(t, NO_TASK, 0, p, t[p].(flags := {}));
      Update(t, NO_TASK, 0, p, t[p].(flags := {RECEIVING, WAITING}));
    }
  }

  lemma ExitKeepsStranded(t: seq<Proc>, p: nat, q: nat, status: int, x: nat)
    requires TableInv(t) && FIRST_FORKED <= p < NR_SLOTS && t[p].flags == {RECEIVING} && t[p].parent == q < NR_SLOTS && p != q
    requires Stranded(t, x)
    ensures Stranded(Adopted(Ended(t, p, q, status), p, NR_SLOTS), x)
  {
    var u := Ended(t, p, q, status);
    var v := Adopted(u, p, NR_SLOTS);
    assert FlagsOk(t[x]) && ParentOk(t, p) && NativeOk(t, INIT);
    assert x != p && x != q;
    assert u[x] == t[x];
    assert v[x].flags == t[x].flags;
    forall j: nat | j < NR_SLOTS && v[j].parent == x ensures Free(v[j]) {
      assert u[j].parent == x && t[j].parent == x;
      assert j != p && j != q && j != INIT;
    }
  }

  /** Whoever has reaped its last child and waits again is left waiting, where the reply "no child"
      was due: the freed slot still carries its number. */
  lemma LastReapStrands(t: seq<Proc>, p: nat, c: nat)
    requires TableInv(t) && p < NR_SLOTS && p != INIT && t[p].flags == {RECEIVING}
    requires c < NR_SLOTS && HangingChild(t, p, c)
    requires forall j: nat :: j < NR_SLOTS && j != c && t[j].parent == p ==> Free(t[j])
    ensures var u := Waited(t, p); !Waiting(u[p]) && Stranded(Waited(u[p := u[p].(flags := {RECEIVING})], p), p)
  {
    assert FlagsOk(t[c]) && ParentOk(t, c) && ParentOk(t, p) && NativeOk(t, p);
    var d := FirstHanging(t, p, 0);
    assert FlagsOk(t[d]);
    assert d == c;
    var u := Waited(t, p);
    WaitKeepsInv(t, p);
    assert u[p].flags == {};
    var v := u[p := u[p].(flags := {RECEIVING})];
    Update(u, NO_TASK, 0, p, v[p]);
    assert v[c].parent == p;
    assert Named(v, p);
    WaitStrands(v, p);
  }

  // ----- Every wait is answered once, and truthfully

  /** How many replies to wait p has been sent. */
  function Answers(log: seq<Reply>, p: nat): nat {
    if log == [] then 0 else Answers(log[..|log| - 1], p) + if log[|log| - 1].to == p then 1 else 0
  }

  lemma AnswersAppend(log: seq<Reply>, r: Reply, p: nat)
    ensures Answers(log + [r], p) == Answers(log, p) + if r.to == p then 1 else 0
  {
    assert (log + [r])[..|log|] == log;
  }

  function Open(t: seq<Proc>, p: nat): nat
    requires p < |t|
  {
    if WAITING in t[p].flags then 1 else 0
  }

  predicate AsksBy(t: seq<Proc>, call: Call, p: nat) {
    call == Wait(p) && Possible(t, call)
  }

  lemma WaitAnswers(t: seq<Proc>, log: seq<Reply>, p: nat, x: nat)
    requires TableInv(t) && p < NR_SLOTS && t[p].flags == {RECEIVING} && x < NR_SLOTS
    ensures |Waited(t, p)| == NR_SLOTS
    ensures Answers(WaitLog(t, log, p), x) + Open(Waited(t, p), x) == Answers(log, x) + Open(t, x) + if x == p then 1 else 0
  {
    var c := FirstHanging(t, p, 0);
    WaitFields(t, log, p);
    if c < NR_SLOTS {
      assert HangingChild(t, p, c) && FlagsOk(t[c]) && ParentOk(t, c);
      AnswersAppend(log, Exited(p, c, t[c].status), x);
    } else if !Named(t, p) {
      AnswersAppend(log, NoChild(p), x);
    } else {
      assert log + [] == log;
    }
  }

  lemma EndAnswers(t: seq<Proc>, log: seq<Reply>, p: nat, q: nat, status: int, x: nat)
    requires TableInv(t) && p < NR_SLOTS && q < NR_SLOTS && t[p].flags == {RECEIVING} && p != q && x < NR_SLOTS
    ensures var after := log + if Waiting(t[q]) then [Exited(q, p, status)] else [];
      Answers(after, x) + Open(Ended(t, p, q, status), x) == Answers(log, x) + Open(t, x)
  {
    AnswersAppend(log, Exited(q, p, status), x);
    assert log + [] == log;
  }

  lemma AdoptAnswers(u: seq<Proc>, log: seq<Reply>, p: nat, x: nat)
    requires InvBut(u, p, 0) && p < NR_SLOTS && x < NR_SLOTS
    ensures Answers(log + AdoptedReport(u, p, NR_SLOTS), x) + Open(Adopted(u, p, NR_SLOTS), x) == Answers(log, x) + Open(u, x)
  {
    var c := FirstHanging(u, p, 0);
    if Reaps(u, p, NR_SLOTS) {
      assert HangingChild(u, p, c) && FlagsOk(u[c]) && NativeOk(u, c) && NativeOk(u, INIT);
      AnswersAppend(log, Exited(INIT, c, u[c].status), x);
    } else {
      assert log + [] == log;
    }
  }

  lemma ExitAnswers(t: seq<Proc>, log: seq<Reply>, p: nat, status: int, x: nat)
    requires TableInv(t) && FIRST_FORKED <= p < NR_SLOTS && t[p].flags == {RECEIVING} && IsPid(t[p].parent) && t[p].parent != p && x < NR_SLOTS
    ensures var q, u := t[p].parent, Ended(t, p, t[p].parent, status);
      Answers(log + (if Waiting(t[q]) then [Exited(q, p, status)] else []) + AdoptedReport(u, p, NR_SLOTS), x) + Open(Adopted(u, p, NR_SLOTS), x)
      == Answers(log, x) + Open(t, x)
  {
    var q := t[p].parent;
    EndKeepsInv(t, p, q, status);
    EndAnswers(t, log, p, q, status, x);
    AdoptAnswers(Ended(t, p, q, status), log + if Waiting(t[q]) then [Exited(q, p, status)] else [], p, x);
  }

  lemma StepAnswers(s: State, call: Call, x: nat)
    requires StateOk(s) && x < NR_SLOTS
    ensures var r := StepOf(s, call);
      Answers(r.log, x) + Open(r.table, x) == Answers(s.log, x) + Open(s.table, x) + if AsksBy(s.table, call, x) then 1 else 0
  {
    if Possible(s.table, call) {
      CallTableInv(s.table, call.p);
      var u := s.table[call.p := s.table[call.p].(flags := {RECEIVING})];
      match call
      case Fork(p) =>
        var c := FirstFree(u, 0);
        if c < NR_SLOTS {
          assert FlagsOk(u[c]);
        }
      case Exit(p, status) =>
        ExitKeepsInv(u, p, status);
        ExitAnswers(u, s.log, p, status, x);
      case Wait(p) => WaitAnswers(u, s.log, p, x);
    }
  }

  /** How often p has called wait. */
  ghost function Asked(s: State, calls: seq<Call>, p: nat): nat
    requires StateOk(s)
  {
    if calls == [] then 0
    else
      var front := calls[..|calls| - 1];
      Asked(s, front, p) + if AsksBy(Run(s, front).table, calls[|calls| - 1], p) then 1 else 0
  }

  /** Over every run each call of wait gets exactly one reply, but for one the caller still waits in. */
  lemma {:induction false} WaitsAreAnswered(s: State, calls: seq<Call>, p: nat)
    requires StateOk(s) && p < NR_SLOTS
    ensures var r := Run(s, calls);
      Answers(r.log, p) + Open(r.table, p) == Answers(s.log, p) + Open(s.table, p) + Asked(s, calls, p)
  {
    if calls != [] {
      var front := calls[..|calls| - 1];
      WaitsAreAnswered(s, front, p);
      StepAnswers(Run(s, front), calls[|calls| - 1], p);
    }
  }

  /** The reply "no child" r is the answer to a wait of a process that no slot names as parent. */
  ghost predicate TrulyNoChild(s: State, call: Call, r: Reply) {
    r.NoChild? && call == Wait(r.to) && forall i: nat :: i < |s.table| ==> s.table[i].parent != r.to
  }

  lemma StepNoChild(s: State, call: Call, j: nat)
    requires StateOk(s) && |s.log| <= j < |StepOf(s, call).log| && StepOf(s, call).log[j].NoChild?
    ensures TrulyNoChild(s, call, StepOf(s, call).log[j])
  {
    CallTableInv(s.table, call.p);
    var u := s.table[call.p := s.table[call.p].(flags := {RECEIVING})];
    if call.Exit? {
      ExitKeepsInv(u, call.p, call.status);
    } else if call.Wait? {
      forall i: nat | i < |s.table| ensures s.table[i].parent != call.p {
        assert u[i].parent == s.table[i].parent;
      }
    }
  }

  ghost predicate TrulyNoChildAt(s: State, calls: seq<Call>, i: nat, r: Reply)
    requires StateOk(s)
  {
    i < |calls| && TrulyNoChild(Run(s, calls[..i]), calls[i], r)
  }

  lemma NoChildEarlier(s: State, calls: seq<Call>, n: nat, i: nat, r: Reply)
    requires StateOk(s) && n <= |calls| && TrulyNoChildAt(s, calls[..n], i, r)
    ensures TrulyNoChildAt(s, calls, i, r)
  {
    assert calls[..n][..i] == calls[..i];
  }

  /** So is every such reply of every run. */
  lemma {:induction false} NoChildIsTrue(s: State, calls: seq<Call>, j: nat)
    requires StateOk(s) && |s.log| <= j < |Run(s, calls).log| && Run(s, calls).log[j].NoChild?
    ensures exists i: nat :: TrulyNoChildAt(s, calls, i, Run(s, calls).log[j])
  {
    var n := |calls| - 1;
    var front := calls[..n];
    var u := Run(s, front);
    LogGrows(u, calls[n]);
    if j < |u.log| {
      NoChildIsTrue(s, front, j);
      var i: nat :| TrulyNoChildAt(s, front, i, u.log[j]);
      NoChildEarlier(s, calls, n, i, u.log[j]);
    } else {
      StepNoChild(u, calls[n], j);
      assert TrulyNoChildAt(s, calls, n, Run(s, calls).log[j]);
    }
  }

  ghost function Boot(): (s: State)
    ensures StateOk(s)
  {
    var t := seq(NR_SLOTS, i => if i < FIRST_FORKED then Proc({}, NO_TASK, 0) else Proc({FREE_SLOT}, 0, 0));
    State(t, [], seq(NR_SLOTS, _ => 0), seq(NR_SLOTS, _ => []))
  }

  lemma FirstFork(s: State)
    requires s == Boot()
    ensures StepOf(s, Fork(6)).table == s.table[9 := Proc({}, 6, 0)]
  {
    var u := s.table[6 := Proc({RECEIVING}, NO_TASK, 0)];
    assert Free(u[9]) && forall j: nat :: j < 9 ==> !Free(u[j]);
    assert FirstFree(u, 0) == 9;
    assert {RECEIVING} - {RECEIVING} == {};
    assert Forked(u, 6, 9) == s.table[9 := Proc({}, 6, 0)];
  }

  lemma FirstExit(s: State, status: int)
    requires StateOk(s) && s.table == Boot().table[9 := Proc({}, 6, 0)]
    ensures StepOf(s, Exit(9, status)).table == s.table[9 := Proc({RECEIVING, HANGING}, 6, status)]
  {
    var u := s.table[9 := Proc({RECEIVING}, 6, 0)];
    var v := Ended(u, 9, 6, status);
    assert {RECEIVING} + {HANGING} == {RECEIVING, HANGING};
    assert v == s.table[9 := Proc({RECEIVING, HANGING}, 6, status)];
    assert FirstHanging(v, 9, 0) == NR_SLOTS;
    assert Adopted(v, 9, NR_SLOTS) == v;
  }

  lemma WaitTwice(s: State, p: nat, c: nat)
    requires StateOk(s) && p < NR_SLOTS && p != INIT && s.table[p].flags == {} && c < NR_SLOTS && HangingChild(s.table, p, c)
    requires forall j: nat :: j < NR_SLOTS && j != c && s.table[j].parent == p ==> Free(s.table[j])
    ensures Stranded(StepOf(StepOf(s, Wait(p)), Wait(p)).table, p)
  {
    CallTableInv(s.table, p);
    var u := s.table[p := s.table[p].(flags := {RECEIVING})];
    assert HangingChild(u, p, c);
    LastReapStrands(u, p, c);
    var v := Waited(u, p);
    var d := FirstHanging(u, p, 0);
    assert d <= c && FlagsOk(u[d]);
    assert d == c && ParentOk(u, c) && {RECEIVING} - {RECEIVING} == {};
    assert v[p].flags == {};
  }

  /** From boot: process 6 forks 9, which exits; 6 reaps it and waits again, for nobody. */
  lemma WaitsForNobody(status: int)
    ensures Stranded(Run(Boot(), [Fork(6), Exit(9, status), Wait(6), Wait(6)]).table, 6)
  {
    var s := Boot();
    RunFour(s, Fork(6), Exit(9, status), Wait(6), Wait(6));
    FirstFork(s);
    FirstExit(StepOf(s, Fork(6)), status);
    WaitTwice(StepOf(StepOf(s, Fork(6)), Exit(9, status)), 6, 9);
  }

  lemma RunFour(s: State, a: Call, b: Call, c: Call, d: Call)
    requires StateOk(s)
    ensures Run(s, [a, b, c, d]) == StepOf(StepOf(StepOf(StepOf(s, a), b), c), d)
  {
    assert [a, b, c, d][..3] == [a, b, c] && [a, b, c][..2] == [a, b] && [a, b][..1] == [a] && [a][..0] == [];
    assert Run(s, [a]) == StepOf(s, a);
    assert Run(s, [a, b]) == StepOf(Run(s, [a]), b);
    assert Run(s, [a, b, c]) == StepOf(Run(s, [a, b]), c);
  }
}
