/** The process table of kernel/proc.c with its intrusive sending queues, and the system calls
    that change it.  Each kernel step is taken as atomic. */
module Ipc {
  import opened Config
  import opened Mailboxes
  import opened MailboxRuns

  /** A `struct proc *` into proc_table. */
  datatype Link = Null | Slot(pid: nat)

  /** The fields of `struct proc` that message passing uses; `hasMsg` is `p_msg != 0`. */
  datatype Proc = Proc(
    flags: set<Flag>,
    hasMsg: bool,
    recvFrom: int,
    sendTo: int,
    hasInt: bool,
    qSending: Link,
    nextSending: Link)

  datatype Function = SEND | RECEIVE | OTHER

  /** OutOfTable: proc_table is indexed past its end, and what follows is undefined. */
  datatype Outcome = Done | DeadlockPanic | AssertionFailure | InvalidFunctionPanic | OutOfTable

  function LinkAt(q: seq<nat>, i: nat): Link {
    if i < |q| then Slot(q[i]) else Null
  }

  /** Process p's flags, message pointer and partner fields say what its abstract mode says. */
  ghost predicate FieldsMatch(x: Proc, m: Mode) {
    match m
    case Ready => x.flags == {} && !x.hasMsg && x.recvFrom == NO_TASK && x.sendTo == NO_TASK
    case Unused => x.flags == {FREE_SLOT}
    case Sending(d) => x.flags == {SENDING} && x.hasMsg && x.recvFrom == NO_TASK && x.sendTo == d
    case Receiving(src) => x.flags == {RECEIVING} && x.hasMsg && x.recvFrom == src && x.sendTo == NO_TASK
  }

  /** The chain from `q_sending` of d through `next_sending` is exactly the mailbox of d. */
  ghost predicate Linked(t: seq<Proc>, d: nat, q: seq<nat>)
    requires d < |t| && forall i: nat :: i < |q| ==> q[i] < |t|
  {
    t[d].qSending == LinkAt(q, 0) && forall i: nat {:trigger NextOk(t, q, i)} :: i < |q| ==> NextOk(t, q, i)
  }

  ghost predicate NextOk(t: seq<Proc>, q: seq<nat>, i: nat)
    requires i < |q| && q[i] < |t|
  {
    t[q[i]].nextSending == LinkAt(q, i + 1)
  }

  ghost predicate SlotOk(t: seq<Proc>, a: State, p: nat)
    requires p < |t| && p < |a.mode| && p < |a.intPending|
  {
    FieldsMatch(t[p], a.mode[p]) && t[p].hasInt == a.intPending[p]
  }

  ghost predicate Refines(t: seq<Proc>, a: State) {
    && |t| == NR_SLOTS && Sized(a) && BoxesInRange(a)
    && (forall p: nat {:trigger SlotOk(t, a, p)} :: p < NR_SLOTS ==> SlotOk(t, a, p))
    && (forall d: nat {:trigger Linked(t, d, a.box[d])} :: d < NR_SLOTS ==> Linked(t, d, a.box[d]))
  }

  /** p is blocked, directly or through others, on q. */
  ghost predicate LeadsTo(mode: seq<Mode>, p: nat, q: nat) {
    exists k: nat :: k > 0 && Path(mode, p, q, k)
  }

  class Kernel {
    const table: array<Proc>
    const mem: array<Message>
    ghost var abs: State

    ghost predicate Valid()
      reads this, table, mem
    {
      table.Length == NR_SLOTS && mem[..] == abs.mem && Inv(abs) && Refines(table[..], abs)
    }

    constructor (free: set<nat>, buffers: seq<Message>)
      requires |buffers| == NR_SLOTS
      ensures Valid() && Initial(abs) && abs.mem == buffers
      ensures forall p: nat :: p < NR_SLOTS ==> (abs.mode[p] == Unused <==> p in free)
      ensures fresh(table) && fresh(mem)
    {
      table := new Proc[NR_SLOTS](p => Proc(if p in free then {FREE_SLOT} else {}, false, NO_TASK, NO_TASK, false, Null, Null));
      mem := new Message[NR_SLOTS](p requires 0 <= p < NR_SLOTS => buffers[p]);
      abs := State(
        seq(NR_SLOTS, p => if p in free then Unused else Ready), buffers, seq(NR_SLOTS, _ => false), seq(NR_SLOTS, _ => []), []);
    }

    method SetProc(p: nat, x: Proc)
      requires p < table.Length
      modifies table
      ensures table[..] == old(table[..])[p := x]
    {
      table[p] := x;
    }

    method SetMem(p: nat, m: Message)
      requires p < mem.Length
      modifies mem
      ensures mem[..] == old(mem[..])[p := m]
    {
      mem[p] := m;
    }

    /** Walks the chain of blocked senders from dest; it ends because the graph is acyclic. */
    method Deadlock(src: nat, dest: nat) returns (found: bool)
      requires Valid() && IsPid(src) && IsPid(dest) && src != dest
      ensures found <==> Reaches(abs.mode, dest, src)
    {
      var p: nat := dest;
      ghost var n: nat, visited: set<nat> := 0, {};
      ghost var all := set x: nat | x < |abs.mode| && abs.mode[x].Sending?;
      while true
        invariant p < NR_SLOTS && p != src && Path(abs.mode, dest, p, n) && visited <= all
        invariant forall v: nat :: v in visited ==> LeadsTo(abs.mode, v, p)
        invariant forall k: nat :: k <= n ==> !Path(abs.mode, dest, src, k)
        decreases all - visited
      {
        assert p !in visited && table[p] == table[..][p] && SlotOk(table[..], abs, p);
        if SENDING !in table[p].flags {
          forall k: nat ensures !Path(abs.mode, dest, src, k) {
            if Path(abs.mode, dest, src, k) { PathSplit(abs.mode, dest, p, n, src, k); }
          }
          return false;
        }
        PathExtend(abs.mode, dest, p, n);
        if table[p].sendTo == src {
          return true;
        }
        forall v: nat | v in visited ensures LeadsTo(abs.mode, v, abs.mode[p].dest) {
          var k: nat :| k > 0 && Path(abs.mode, v, p, k);
          PathExtend(abs.mode, v, p, k);
        }
        assert LeadsTo(abs.mode, p, abs.mode[p].dest) by { assert Path(abs.mode, p, abs.mode[p].dest, 1); }
        if Path(abs.mode, dest, src, n + 1) { PathSplit(abs.mode, dest, p, n, src, n + 1); }
        visited := visited + {p};
        p := table[p].sendTo;
        n := n + 1;
      }
    }

    /** The branch of msg_send taken when dest waits for this message. */
    method HandOver(sender: nat, dest: nat)
      requires Valid() && IsPid(sender) && Enabled(abs, Send(sender, dest, abs.mem[sender])) && abs.mem[sender].source == sender
      requires Accepts(abs.mode[dest], sender)
      modifies this`abs, table, mem
      ensures Valid() && abs == SendStep(old(abs), sender, dest, old(abs.mem[sender]))
    {
      ghost var a, t := abs, table[..];
      assert SlotOk(t, a, sender) && SlotOk(t, a, dest) && table[sender] == t[sender] && table[dest] == t[dest];
      abs := SendStep(a, sender, dest, a.mem[sender]);
      SendKeepsInv(a, sender, dest, a.mem[sender]);
      assert table[dest].hasMsg;
      SetMem(dest, mem[sender]);
      SetProc(dest, table[dest].(hasMsg := false, flags := table[dest].flags - {RECEIVING}, recvFrom := NO_TASK));
      assert table[dest].flags == {} && !table[dest].hasMsg && table[dest].sendTo == NO_TASK;
      assert table[sender].flags == {} && !table[sender].hasMsg;
      assert table[sender].recvFrom == NO_TASK && table[sender].sendTo == NO_TASK;
      FieldUpdateRefines(t, a, dest, table[dest], abs);
    }

    /** The loop of msg_send that appends the sender to the queue of dest. */
    method Append(sender: nat, dest: nat, ghost q: seq<nat>)
      requires table.Length == NR_SLOTS && IsPid(sender) && IsPid(dest) && sender != dest && sender !in q
      requires forall i: nat :: i < |q| ==> q[i] < NR_SLOTS
      requires Linked(table[..], dest, q)
      modifies table
      ensures table[..] == Appended(old(table[..]), q, sender, dest)
    {
      ghost var t := table[..];
      if table[dest].qSending != Null {
        var p := table[dest].qSending.pid;
        ghost var i := 0;
        while table[p].nextSending != Null
          invariant 0 <= i < |q| && p == q[i] && table[..] == t && NextOk(t, q, i) && table[p] == t[p]
          decreases |q| - i
        {
          assert NextOk(t, q, i + 1);
          p := table[p].nextSending.pid;
          i := i + 1;
        }
        SetProc(p, table[p].(nextSending := Slot(sender)));
      } else {
        SetProc(dest, table[dest].(qSending := Slot(sender)));
      }
      SetProc(sender, table[sender].(nextSending := Null));
    }

    /** Hands the caller's message to a waiting dest, or queues the caller behind the others. */
    method MsgSend(sender: nat, dest: nat) returns (o: Outcome)
      requires Valid() && IsPid(sender) && IsPid(dest) && sender != dest
      requires abs.mode[sender] == Ready && abs.mem[sender].source == sender
      modifies this`abs, table, mem
      ensures Valid()
      ensures o == if Reaches(old(abs.mode), dest, sender) then DeadlockPanic else Done
      ensures abs == if o.Done? then SendStep(old(abs), sender, dest, old(abs.mem[sender])) else old(abs)
    {
      assert SlotOk(table[..], abs, sender) && SlotOk(table[..], abs, dest);
      assert table[sender] == table[..][sender] && table[dest] == table[..][dest];
      var found := Deadlock(sender, dest);
      if found {
        return DeadlockPanic;
      }
      if RECEIVING in table[dest].flags && (table[dest].recvFrom == sender || table[dest].recvFrom == ANY) {
        HandOver(sender, dest);
      } else {
        ghost var a, t := abs, table[..];
        assert Linked(t, dest, a.box[dest]) && BoxHoldsSenders(a, dest);
        SetProc(sender, table[sender].(flags := table[sender].flags + {SENDING}, sendTo := dest, hasMsg := true));
        assert table[..][sender].flags == {SENDING};
        LinksKept(t, sender, table[..][sender], dest, a.box[dest]);
        Append(sender, dest, a.box[dest]);
        assert table[sender].recvFrom == NO_TASK && table[sender].sendTo == dest && table[sender].hasMsg;
        EnqueueRefines(t, a, sender, dest, table[..]);
        SendKeepsInv(a, sender, dest, a.mem[sender]);
        abs := SendStep(a, sender, dest, a.mem[sender]);
      }
      return Done;
    }

    /** The search loop of a selective msg_receive: src is at position i of the queue of r. */
    method FindSender(r: nat, src: nat, ghost q: seq<nat>) returns (prev: Link, ghost i: nat)
      requires table.Length == NR_SLOTS && IsPid(r) && src in q
      requires forall i: nat :: i < |q| ==> q[i] < NR_SLOTS
      requires Linked(table[..], r, q)
      ensures i < |q| && q[i] == src && prev == if i == 0 then Null else Slot(q[i - 1])
    {
      var p := table[r].qSending;
      prev, i := Null, 0;
      assert p != Null;
      while p != Null
        invariant i <= |q| && p == LinkAt(q, i) && prev == if i == 0 then Null else Slot(q[i - 1])
        invariant src in q[i..]
        decreases |q| - i
      {
        if p.pid == src {
          return;
        }
        assert NextOk(table[..], q, i) && table[p.pid] == table[..][p.pid];
        prev := p;
        p := table[p.pid].nextSending;
        i := i + 1;
      }
    }

    /** Takes the sender after `prev` out of the queue of r. */
    method Unlink(r: nat, from: nat, prev: Link, ghost q: seq<nat>, ghost i: nat)
      requires table.Length == NR_SLOTS && IsPid(r) && Distinct(q) && r !in q
      requires forall j: nat :: j < |q| ==> q[j] < NR_SLOTS
      requires Linked(table[..], r, q) && i < |q| && q[i] == from && prev == if i == 0 then Null else Slot(q[i - 1])
      modifies table
      ensures table[..] == Unlinked(old(table[..]), q, i, r)
    {
      ghost var t := table[..];
      assert table[r] == t[r] && table[from] == t[from] && NextOk(t, q, i);
      if table[r].qSending == Slot(from) {
        assert i == 0;
        SetProc(r, table[r].(qSending := table[from].nextSending));
      } else {
        assert table[prev.pid] == t[prev.pid];
        SetProc(prev.pid, table[prev.pid].(nextSending := table[from].nextSending));
      }
      assert table[from] == table[..][from];
      SetProc(from, table[from].(nextSending := Null));
    }

    /** Takes the sender after `prev` out of the queue of r, copies its message and unblocks it. */
    method TakeFrom(r: nat, from: nat, prev: Link, ghost i: nat)
      requires Valid() && IsPid(r) && abs.mode[r] == Ready && from in abs.box[r]
      requires i < |abs.box[r]| && abs.box[r][i] == from && prev == if i == 0 then Null else Slot(abs.box[r][i - 1])
      modifies this`abs, table, mem
      ensures IsPid(from) && Valid() && abs == Take(old(abs), r, from)
    {
      ghost var a, t := abs, table[..];
      ghost var q := a.box[r];
      assert Linked(t, r, q) && BoxHoldsSenders(a, r);
      TakeKeepsInv(a, r, from);
      assert SlotOk(t, a, r) && SlotOk(t, a, from) && table[r] == t[r] && table[from] == t[from];
      assert table[r].flags == {} && !table[r].hasMsg && table[r].recvFrom == NO_TASK && table[r].sendTo == NO_TASK;
      assert table[from].flags == {SENDING} && table[from].recvFrom == NO_TASK && table[from].sendTo == r;
      Unlink(r, from, prev, q, i);
      assert table[from].hasMsg;
      SetMem(r, mem[from]);
      SetProc(from, table[from].(hasMsg := false, sendTo := NO_TASK, flags := table[from].flags - {SENDING}));
      assert table[from].flags == {};
      TakeRefines(t, a, r, i, table[..]);
      abs := Take(a, r, from);
    }

    /** The final assertion of a blocking receive (no interrupt pending) fails exactly when the
        caller names one process that is not sending to it while an interrupt is pending. */
    method MsgReceive(r: nat, src: int) returns (o: Outcome)
      requires Valid() && IsPid(r) && abs.mode[r] == Ready && abs.mem[r].source == r
      requires Enabled(abs, Receive(r, src, abs.mem[r]))
      modifies this`abs, table, mem
      ensures Valid() && abs == ReceiveStep(old(abs), r, src, old(abs.mem[r]))
      ensures o == if BlocksInterrupted(old(abs), r, src) then AssertionFailure else Done
    {
      ghost var a, t := abs, table[..];
      ReceiveKeepsInv(a, r, src, a.mem[r]);
      assert SlotOk(t, a, r) && table[r] == t[r];
      assert IsPid(src) ==> SlotOk(t, a, src) && table[src] == t[src];
      assert Linked(t, r, a.box[r]) && BoxHoldsSenders(a, r) && Stamp(a, r, a.mem[r]) == a;
      if table[r].hasInt && (src == ANY || src == INTERRUPT) {
        SetMem(r, INT_MESSAGE);
        SetProc(r, table[r].(hasInt := false));
        assert table[..][r].flags == {} && !table[..][r].hasMsg && table[..][r].sendTo == NO_TASK && !table[..][r].hasInt;
        abs := ReceiveStep(a, r, src, a.mem[r]);
        FieldUpdateRefines(t, a, r, table[r], abs);
        return Done;
      }
      if src == ANY && table[r].qSending != Null {
        TakeFrom(r, table[r].qSending.pid, Null, 0);
      } else if IsPid(src) && SENDING in table[src].flags && table[src].sendTo == r {
        var prev;
        ghost var i;
        prev, i := FindSender(r, src, a.box[r]);
        TakeFrom(r, src, prev, i);
      } else {
        SetProc(r, table[r].(flags := table[r].flags + {RECEIVING}, hasMsg := true, recvFrom := src));
        assert table[r].flags == {RECEIVING} && table[r].recvFrom != NO_TASK && table[r].sendTo == NO_TASK;
        abs := ReceiveStep(a, r, src, a.mem[r]);
        FieldUpdateRefines(t, a, r, table[r], abs);
        if table[r].hasInt {
          return AssertionFailure;
        }
      }
      return Done;
    }

    method InformInt(task: nat)
      requires Valid() && IsPid(task)
      modifies this`abs, table, mem
      ensures Valid() && abs == InterruptStep(old(abs), task)
    {
      ghost var a, t := abs, table[..];
      InterruptKeepsInv(a, task);
      assert SlotOk(t, a, task) && table[task] == t[task];
      abs := InterruptStep(a, task);
      if RECEIVING in table[task].flags && (table[task].recvFrom == INTERRUPT || table[task].recvFrom == ANY) {
        SetMem(task, mem[task].(source := INTERRUPT, kind := HARD_INT));
        SetProc(task, table[task].(hasMsg := false, hasInt := false, flags := table[task].flags - {RECEIVING}, recvFrom := NO_TASK));
        assert table[task].flags == {} && table[task].sendTo == NO_TASK;
      } else {
        SetProc(task, table[task].(hasInt := true));
      }
      FieldUpdateRefines(t, a, task, table[task], abs);
    }

    /** The system call. The check on its argument lets a SEND to ANY or INTERRUPT through, which then
        indexes the table with it. */
    method SysSendrec(f: Function, srcDest: int, m: Message, caller: nat) returns (o: Outcome)
      requires Valid() && IsPid(caller) && abs.mode[caller] == Ready
      modifies this`abs, table, mem
      ensures Valid()
      ensures o == CallOutcome(old(abs), f, srcDest, caller)
      ensures o.Done? ==> Enabled(old(abs), CallEvent(f, srcDest, m, caller))
      ensures !o.OutOfTable? && Enabled(old(abs), CallEvent(f, srcDest, m, caller)) && !f.OTHER? ==>
                abs == Step(old(abs), CallEvent(f, srcDest, m, caller))
    {
      if !(IsPid(srcDest) || srcDest == ANY || srcDest == INTERRUPT) {
        return AssertionFailure;
      }
      ghost var a := abs;
      StampKeepsValid(table[..], a, caller, m);
      SetMem(caller, m.(source := caller));
      abs := Stamp(a, caller, m);
      assert Stamp(abs, caller, abs.mem[caller]) == abs;
      if caller == srcDest {
        return AssertionFailure;
      }
      match f
      case SEND =>
        if srcDest == ANY || srcDest == INTERRUPT {
          return OutOfTable;
        }
        o := MsgSend(caller, srcDest);
      case RECEIVE => o := MsgReceive(caller, srcDest);
      case OTHER => o := InvalidFunctionPanic;
    }

    /** One event; false means the machine halts at it. */
    method Dispatch(e: Event) returns (ok: bool)
      requires Valid()
      modifies this`abs, table, mem
      ensures Valid()
      ensures ok <==> !Halts(old(abs), e)
      ensures ok ==> abs == Step(old(abs), e)
    {
      match e
      case Send(p, d, m) =>
        assert IsPid(p) ==> SlotOk(table[..], abs, p) && table[p] == table[..][p];
        if !IsPid(p) || table[p].flags != {} { return false; }
        var o := SysSendrec(SEND, d, m, p);
        ok := o.Done?;
      case Receive(p, src, m) =>
        assert IsPid(p) ==> SlotOk(table[..], abs, p) && table[p] == table[..][p];
        if !IsPid(p) || table[p].flags != {} { return false; }
        var o := SysSendrec(RECEIVE, src, m, p);
        ok := o.Done?;
      case Interrupt(t) =>
        if !IsPid(t) { return false; }
        InformInt(t);
        ok := true;
    }

    /** Runs events in order until one halts the machine: a call that fails its checks, or whose
        caller is not running. */
    method Execute(events: seq<Event>) returns (n: nat)
      requires Valid() && Initial(abs)
      modifies this`abs, table, mem
      ensures Valid() && n <= |events|
      ensures n == |events| ==> abs == Exec(old(abs), events)
      ensures n < |events| ==> Halts(Exec(old(abs), events[..n]), events[n])
    {
      n := 0;
      ghost var s := abs;
      while n < |events|
        invariant Valid() && n <= |events| && abs == Exec(s, events[..n])
      {
        ExecExtend(s, events, n);
        var ok := Dispatch(events[n]);
        if !ok {
          return;
        }
        n := n + 1;
      }
      assert events[..n] == events;
    }
  }

  /** Receive by p from one process that is not sending to it, with an interrupt pending. */
  ghost predicate BlocksInterrupted(u: State, p: nat, src: int)
    requires Sized(u) && IsPid(p)
  {
    u.intPending[p] && IsPid(src) && u.mode[src] != Sending(p)
  }

  ghost function CallEvent(f: Function, srcDest: int, m: Message, caller: nat): Event {
    if f.SEND? && 0 <= srcDest then Send(caller, srcDest, m) else Receive(caller, srcDest, m)
  }

  ghost function CallOutcome(u: State, f: Function, srcDest: int, caller: nat): Outcome
    requires Sized(u) && IsPid(caller)
  {
    if !(IsPid(srcDest) || srcDest == ANY || srcDest == INTERRUPT) || srcDest == caller then AssertionFailure
    else match f
      case SEND => if !IsPid(srcDest) then OutOfTable else if Reaches(u.mode, srcDest, caller) then DeadlockPanic else Done
      case RECEIVE => if BlocksInterrupted(u, caller, srcDest) then AssertionFailure else Done
      case OTHER => InvalidFunctionPanic
  }

  ghost predicate Halts(u: State, e: Event)
    requires Sized(u)
  {
    !Enabled(u, e) || (e.Receive? && BlocksInterrupted(u, e.caller, e.from))
  }

  lemma StampKeepsValid(t: seq<Proc>, a: State, p: nat, m: Message)
    requires Inv(a) && Refines(t, a) && IsPid(p) && a.mode[p] == Ready
    ensures Inv(Stamp(a, p, m)) && Refines(t, Stamp(a, p, m))
  {
    var b := Stamp(a, p, m);
    forall d: nat | d < NR_SLOTS ensures BoxHoldsSenders(b, d) && Linked(t, d, b.box[d]) {
      assert BoxHoldsSenders(a, d) && Linked(t, d, a.box[d]);
    }
    forall q: nat | q < NR_SLOTS ensures SlotOk(t, b, q) {
      assert SlotOk(t, a, q);
    }
  }

  /** The table after the i-th member of the queue q of r was linked out. */
  ghost function Unlinked(t: seq<Proc>, q: seq<nat>, i: nat, r: nat): seq<Proc>
    requires r < |t| && i < |q| && forall i: nat :: i < |q| ==> q[i] < |t|
  {
    var next := t[q[i]].nextSending;
    var u := if i == 0 then t[r := t[r].(qSending := next)]
             else t[q[i - 1] := t[q[i - 1]].(nextSending := next)];
    u[q[i] := u[q[i]].(nextSending := Null)]
  }

  lemma UnlinkLinks(t: seq<Proc>, q: seq<nat>, i: nat, r: nat)
    requires r < |t| && i < |q| && Distinct(q) && r !in q
    requires forall i: nat :: i < |q| ==> q[i] < |t|
    requires Linked(t, r, q)
    ensures Linked(Unlinked(t, q, i, r), r, q[..i] + q[i + 1..])
  {
    var u, rest := Unlinked(t, q, i, r), q[..i] + q[i + 1..];
    assert NextOk(t, q, i);
    forall j: nat | j < |rest| ensures NextOk(u, rest, j) {
      assert NextOk(t, q, if j < i then j else j + 1);
    }
  }

  lemma UnlinkLeavesOthers(t: seq<Proc>, q: seq<nat>, i: nat, r: nat, d: nat, x: seq<nat>)
    requires r < |t| && i < |q| && d < |t| && d != r
    requires forall i: nat :: i < |q| ==> q[i] < |t| && q[i] !in x
    requires forall i: nat :: i < |x| ==> x[i] < |t|
    requires Linked(t, d, x)
    ensures Linked(Unlinked(t, q, i, r), d, x)
  {
    forall j: nat | j < |x| ensures NextOk(Unlinked(t, q, i, r), x, j) {
      assert NextOk(t, x, j);
    }
  }

  lemma TakeLinks(t: seq<Proc>, a: State, r: nat, i: nat, d: nat)
    requires Inv(a) && IsPid(r) && a.mode[r] == Ready && i < |a.box[r]| && IsPid(d) && |t| == NR_SLOTS
    requires Linked(t, d, a.box[d])
    ensures forall j: nat :: j < |Without(a.box[r], a.box[r][i])| ==> Without(a.box[r], a.box[r][i])[j] < NR_SLOTS
    ensures Linked(Unlinked(t, a.box[r], i, r), d, if d == r then Without(a.box[r], a.box[r][i]) else a.box[d])
  {
    BoxesApart(a, r, r, r);
    BoxesApart(a, r, d, r);
    WithoutAt(a.box[r], i);
    if d == r {
      UnlinkLinks(t, a.box[r], i, r);
    } else {
      UnlinkLeavesOthers(t, a.box[r], i, r, d, a.box[d]);
    }
  }

  lemma UnlinkRefines(t: seq<Proc>, a: State, r: nat, i: nat, box: seq<seq<nat>>)
    requires Refines(t, a) && Inv(a) && IsPid(r) && a.mode[r] == Ready && i < |a.box[r]|
    requires box == a.box[r := Without(a.box[r], a.box[r][i])] && BoxesInRange(a.(box := box))
    ensures Refines(Unlinked(t, a.box[r], i, r), a.(box := box))
  {
    var u := Unlinked(t, a.box[r], i, r);
    forall d: nat | d < NR_SLOTS ensures Linked(u, d, box[d]) {
      assert Linked(t, d, a.box[d]);
      TakeLinks(t, a, r, i, d);
    }
    forall p: nat | p < NR_SLOTS ensures SlotOk(u, a.(box := box), p) {
      assert SlotOk(t, a, p);
    }
  }

  /** Linking the sender out and unblocking it is the abstract removal from the mailbox. */
  lemma TakeRefines(t: seq<Proc>, a: State, r: nat, i: nat, t': seq<Proc>)
    requires Refines(t, a) && Inv(a) && IsPid(r) && a.mode[r] == Ready && i < |a.box[r]|
    requires var from, u := a.box[r][i], Unlinked(t, a.box[r], i, r);
      t' == u[from := u[from].(hasMsg := false, sendTo := NO_TASK, flags := {})]
    ensures Refines(t', Take(a, r, a.box[r][i]))
  {
    var from := a.box[r][i];
    var u, b := Unlinked(t, a.box[r], i, r), Take(a, r, from);
    TakeKeepsInv(a, r, from);
    UnlinkRefines(t, a, r, i, b.box);
    assert FieldsMatch(u[from], Sending(r)) && u[from].hasInt == a.intPending[from] by {
      assert BoxHoldsSenders(a, r) && SlotOk(t, a, from);
    }
    FieldUpdateRefines(u, a.(box := b.box), from, t'[from], b);
  }

  lemma LinksKept(t: seq<Proc>, p: nat, x: Proc, d: nat, q: seq<nat>)
    requires p < |t| && d < |t| && (forall i: nat :: i < |q| ==> q[i] < |t|)
    requires x.qSending == t[p].qSending && x.nextSending == t[p].nextSending && Linked(t, d, q)
    ensures Linked(t[p := x], d, q)
  {
    var u := t[p := x];
    forall i: nat | i < |q| ensures NextOk(u, q, i) {
      assert NextOk(t, q, i);
    }
  }

  /** Changing fields of one process other than its links keeps every queue. */
  lemma FieldUpdateRefines(t: seq<Proc>, a: State, p: nat, x: Proc, b: State)
    requires Refines(t, a) && IsPid(p) && Sized(b) && b.box == a.box
    requires x.qSending == t[p].qSending && x.nextSending == t[p].nextSending
    requires forall r: nat :: r < NR_SLOTS && r != p ==> b.mode[r] == a.mode[r] && b.intPending[r] == a.intPending[r]
    requires FieldsMatch(x, b.mode[p]) && x.hasInt == b.intPending[p]
    ensures Refines(t[p := x], b)
  {
    forall d: nat | d < NR_SLOTS ensures Linked(t[p := x], d, b.box[d]) {
      assert Linked(t, d, a.box[d]);
      LinksKept(t, p, x, d, a.box[d]);
    }
    var u := t[p := x];
    forall r: nat | r < NR_SLOTS ensures SlotOk(u, b, r) {
      assert SlotOk(t, a, r);
    }
  }

  /** The table after `sender` was linked in behind the queue q of dest. */
  ghost function Appended(t: seq<Proc>, q: seq<nat>, sender: nat, dest: nat): seq<Proc>
    requires sender < |t| && dest < |t| && forall i: nat :: i < |q| ==> q[i] < |t|
  {
    var u := if q == [] then t[dest := t[dest].(qSending := Slot(sender))]
             else t[q[|q| - 1] := t[q[|q| - 1]].(nextSending := Slot(sender))];
    u[sender := u[sender].(nextSending := Null)]
  }

  lemma AppendLinks(t: seq<Proc>, q: seq<nat>, sender: nat, dest: nat)
    requires sender < |t| && dest < |t| && sender != dest && sender !in q && Distinct(q)
    requires forall i: nat :: i < |q| ==> q[i] < |t|
    requires Linked(t, dest, q)
    ensures Linked(Appended(t, q, sender, dest), dest, q + [sender])
  {
    var u, longer := Appended(t, q, sender, dest), q + [sender];
    forall j: nat | j < |longer| ensures NextOk(u, longer, j) {
      if j < |q| {
        assert NextOk(t, q, j);
      }
    }
  }

  lemma AppendLeavesOthers(t: seq<Proc>, q: seq<nat>, sender: nat, dest: nat, d: nat, r: seq<nat>)
    requires sender < |t| && dest < |t| && d < |t| && d != dest && sender !in r
    requires forall i: nat :: i < |q| ==> q[i] < |t| && q[i] !in r
    requires forall i: nat :: i < |r| ==> r[i] < |t|
    requires Linked(t, d, r)
    ensures Linked(Appended(t, q, sender, dest), d, r)
  {
    forall j: nat | j < |r| ensures NextOk(Appended(t, q, sender, dest), r, j) {
      assert NextOk(t, r, j);
    }
  }

  /** Mailboxes of different owners share no sender, and a ready process is in none. */
  lemma BoxesApart(a: State, d: nat, e: nat, p: nat)
    requires Inv(a) && IsPid(d) && IsPid(e) && IsPid(p)
    ensures d != e ==> forall i: nat :: i < |a.box[d]| ==> a.box[d][i] !in a.box[e]
    ensures !a.mode[p].Sending? ==> p !in a.box[d]
    ensures Distinct(a.box[d])
  {
    assert BoxHoldsSenders(a, d) && BoxHoldsSenders(a, e);
  }

  /** Blocking the sender and linking it in is the abstract append to the mailbox. */
  lemma EnqueueLinks(t: seq<Proc>, a: State, sender: nat, dest: nat, d: nat)
    requires Inv(a) && IsPid(sender) && IsPid(dest) && sender != dest && a.mode[sender] == Ready && IsPid(d)
    requires |t| == NR_SLOTS && Linked(t, d, a.box[d])
    ensures Linked(Appended(t, a.box[dest], sender, dest), d, if d == dest then a.box[d] + [sender] else a.box[d])
  {
    BoxesApart(a, d, dest, sender);
    BoxesApart(a, dest, d, sender);
    if d == dest {
      AppendLinks(t, a.box[d], sender, dest);
    } else {
      AppendLeavesOthers(t, a.box[dest], sender, dest, d, a.box[d]);
    }
  }

  lemma EnqueueRefines(t: seq<Proc>, a: State, sender: nat, dest: nat, t': seq<Proc>)
    requires Refines(t, a) && Inv(a) && IsPid(sender) && IsPid(dest) && sender != dest
    requires a.mode[sender] == Ready && a.mem[sender].source == sender && !Accepts(a.mode[dest], sender)
    requires t' == Appended(t[sender := t[sender].(flags := {SENDING}, sendTo := dest, hasMsg := true)], a.box[dest], sender, dest)
    ensures Refines(t', SendStep(a, sender, dest, a.mem[sender]))
  {
    var b := SendStep(a, sender, dest, a.mem[sender]);
    var u := t[sender := t[sender].(flags := {SENDING}, sendTo := dest, hasMsg := true)];
    assert Refines(u, a.(mode := b.mode)) by {
      assert SlotOk(t, a, sender);
      FieldUpdateRefines(t, a, sender, u[sender], a.(mode := b.mode));
    }
    forall d: nat | d < NR_SLOTS ensures Linked(t', d, b.box[d]) {
      assert Linked(u, d, a.(mode := b.mode).box[d]);
      EnqueueLinks(u, a, sender, dest, d);
    }
    forall p: nat | p < NR_SLOTS ensures SlotOk(t', b, p) {
      assert SlotOk(u, a.(mode := b.mode), p);
    }
  }

  /** Paths are deterministic: a longer one goes on from where a shorter one ended. */
  lemma {:induction false} PathSplit(mode: seq<Mode>, a: nat, p: nat, n: nat, b: nat, k: nat)
    requires Path(mode, a, p, n) && Path(mode, a, b, k) && n <= k
    ensures Path(mode, p, b, k - n)
    decreases n
  {
    if n > 0 { PathSplit(mode, mode[a].dest, p, n - 1, b, k - 1); }
  }
}
