/** The message-passing service as a user of it sees it: every process owns a FIFO mailbox of
    blocked senders.  The linked queues of kernel/proc.c are proved to refine this in Ipc.dfy. */
module Mailboxes {
  import opened Config

  /** `body` stands for the union of payload words. */
  datatype Message = Message(source: int, kind: int, body: seq<int>)

  const INT_MESSAGE := Message(INTERRUPT, HARD_INT, [])

  datatype Mode = Ready | Unused | Sending(dest: nat) | Receiving(from: int)

  datatype Delivery = Delivery(to: nat, msg: Message)

  /** `mem[p]` is the MESSAGE structure process p passed to its latest call, `got` the deliveries
      made so far, oldest first. */
  datatype State = State(
    mode: seq<Mode>,
    mem: seq<Message>,
    intPending: seq<bool>,
    box: seq<seq<nat>>,
    got: seq<Delivery>)

  datatype Event =
    | Send(caller: nat, dest: nat, msg: Message)
    | Receive(caller: nat, from: int, msg: Message)
    | Interrupt(task: nat)

  // ----- The wait-for graph of blocked senders

  /** Following n blocked sends from p ends at q. */
  ghost predicate Path(mode: seq<Mode>, p: nat, q: nat, n: nat)
    decreases n
  {
    if n == 0 then p == q
    else p < |mode| && mode[p].Sending? && Path(mode, mode[p].dest, q, n - 1)
  }

  ghost predicate Reaches(mode: seq<Mode>, p: nat, q: nat) {
    exists n: nat :: Path(mode, p, q, n)
  }

  ghost predicate Acyclic(mode: seq<Mode>) {
    forall p: nat, n: nat :: p < |mode| && Path(mode, p, p, n) ==> n == 0
  }

  // ----- Steps

  predicate Accepts(m: Mode, sender: nat) {
    m.Receiving? && (m.from == sender || m.from == ANY)
  }

  predicate AcceptsInterrupt(m: Mode) {
    m.Receiving? && (m.from == INTERRUPT || m.from == ANY)
  }

  /** q without its first x. */
  function Without(q: seq<nat>, x: nat): seq<nat> {
    if q == [] then [] else if q[0] == x then q[1..] else [q[0]] + Without(q[1..], x)
  }

  ghost predicate Sized(s: State) {
    |s.mode| == |s.mem| == |s.intPending| == |s.box| == NR_SLOTS
  }

  function Stamp(s: State, p: nat, m: Message): State
    requires p < |s.mem|
  {
    s.(mem := s.mem[p := m.(source := p)])
  }

  function Deliver(s: State, p: nat, m: Message): State
    requires p < |s.mem|
  {
    s.(mem := s.mem[p := m], got := s.got + [Delivery(p, m)])
  }

  ghost function SendStep(s: State, p: nat, d: nat, m: Message): State
    requires Sized(s) && IsPid(p) && IsPid(d)
  {
    var s := Stamp(s, p, m);
    if Accepts(s.mode[d], p) then
      Deliver(s, d, s.mem[p]).(mode := s.mode[d := Ready])
    else
      s.(mode := s.mode[p := Sending(d)], box := s.box[d := s.box[d] + [p]])
  }

  /** p takes the message of q, a sender blocked in its mailbox. */
  ghost function Take(s: State, p: nat, q: nat): State
    requires Sized(s) && IsPid(p) && IsPid(q)
  {
    Deliver(s, p, s.mem[q]).(mode := s.mode[q := Ready], box := s.box[p := Without(s.box[p], q)])
  }

  ghost predicate BoxesInRange(s: State) {
    forall d: nat, i: nat :: d < |s.box| && i < |s.box[d]| ==> s.box[d][i] < NR_SLOTS
  }

  ghost function ReceiveStep(s: State, p: nat, src: int, m: Message): State
    requires Sized(s) && IsPid(p) && BoxesInRange(s)
  {
    var s := Stamp(s, p, m);
    if s.intPending[p] && (src == ANY || src == INTERRUPT) then
      Deliver(s, p, INT_MESSAGE).(intPending := s.intPending[p := false])
    else if src == ANY && s.box[p] != [] then
      Take(s, p, s.box[p][0])
    else if IsPid(src) && src in s.box[p] then
      Take(s, p, src)
    else
      s.(mode := s.mode[p := Receiving(src)])
  }

  ghost function InterruptStep(s: State, t: nat): State
    requires Sized(s) && IsPid(t)
  {
    if AcceptsInterrupt(s.mode[t]) then
      Deliver(s, t, s.mem[t].(source := INTERRUPT, kind := HARD_INT)).(
        mode := s.mode[t := Ready], intPending := s.intPending[t := false])
    else
      s.(intPending := s.intPending[t := true])
  }

  ghost predicate Enabled(s: State, e: Event)
    requires Sized(s)
  {
    match e
    case Send(p, d, _) =>
      IsPid(p) && IsPid(d) && p != d && s.mode[p] == Ready && !Reaches(s.mode, d, p)
    case Receive(p, src, _) =>
      IsPid(p) && p != src && s.mode[p] == Ready && (IsPid(src) || src == ANY || src == INTERRUPT)
    case Interrupt(t) => IsPid(t)
  }

  /** One atomic kernel step; a call that cannot happen (or panics) leaves the state alone. */
  ghost function Step(s: State, e: Event): State
    requires Sized(s) && BoxesInRange(s)
  {
    if !Enabled(s, e) then s else
    match e
    case Send(p, d, m) => SendStep(s, p, d, m)
    case Receive(p, src, m) => ReceiveStep(s, p, src, m)
    case Interrupt(t) => InterruptStep(s, t)
  }

  // ----- The invariant

  ghost predicate Distinct(q: seq<nat>) {
    forall i, j :: 0 <= i < j < |q| ==> q[i] != q[j]
  }

  /** The mailbox of d holds each process blocked sending to d once, and nobody else. */
  ghost predicate BoxHoldsSenders(s: State, d: nat)
    requires Sized(s) && IsPid(d)
  {
    && Distinct(s.box[d])
    && (forall i: nat :: i < |s.box[d]| ==> s.box[d][i] < NR_SLOTS && s.mode[s.box[d][i]] == Sending(d))
    && (forall p: nat :: p < NR_SLOTS && s.mode[p] == Sending(d) ==> p in s.box[d])
  }

  ghost predicate ModesWellFormed(s: State)
    requires Sized(s)
  {
    forall p: nat :: p < NR_SLOTS ==>
      match s.mode[p]
      case Sending(d) => IsPid(d) && d != p && s.mem[p].source == p
      case Receiving(src) => src != p && (IsPid(src) || src == ANY || src == INTERRUPT)
      case _ => true
  }

  /** Nobody blocked in a receive has what it waits for already at hand. */
  ghost predicate NoLostWakeup(s: State)
    requires Sized(s)
  {
    forall p: nat :: p < NR_SLOTS && s.mode[p].Receiving? ==>
      && (forall q: nat :: q < NR_SLOTS && s.mode[q] == Sending(p) ==> s.mode[p].from != q && s.mode[p].from != ANY)
      && (s.intPending[p] ==> s.mode[p].from != ANY && s.mode[p].from != INTERRUPT)
  }

  ghost predicate Inv(s: State) {
    && Sized(s) && BoxesInRange(s)
    && (forall d: nat :: d < NR_SLOTS ==> BoxHoldsSenders(s, d))
    && ModesWellFormed(s)
    && NoLostWakeup(s)
    && Acyclic(s.mode)
  }

  /** The table kernel_main leaves behind: nobody blocked, nothing pending. */
  ghost predicate Initial(s: State)
    ensures Initial(s) ==> Inv(s)
  {
    && Sized(s)
    && (forall p: nat :: p < NR_SLOTS ==>
         (s.mode[p] == Ready || s.mode[p] == Unused) && !s.intPending[p] && s.box[p] == [])
    && s.got == []
  }

  // ----- Facts about queues

  lemma {:induction false} WithoutAt(q: seq<nat>, i: nat)
    requires Distinct(q) && i < |q|
    ensures Without(q, q[i]) == q[..i] + q[i + 1..]
  {
    if i > 0 {
      assert q[1..][i - 1] == q[i];
      WithoutAt(q[1..], i - 1);
      assert [q[0]] + (q[1..][..i - 1] + q[1..][i..]) == q[..i] + q[i + 1..];
    }
  }

  /** Removing a member keeps every other member and their order. */
  lemma WithoutKeeps(q: seq<nat>, x: nat)
    requires Distinct(q) && x in q
    ensures Distinct(Without(q, x)) && x !in Without(q, x)
    ensures forall y :: y != x ==> (y in Without(q, x) <==> y in q)
  {
    var i :| 0 <= i < |q| && q[i] == x;
    WithoutAt(q, i);
    var r := q[..i] + q[i + 1..];
    assert forall j :: 0 <= j < |r| ==> r[j] == q[if j < i then j else j + 1];
    forall y | y != x && y in q ensures y in r {
      var j :| 0 <= j < |q| && q[j] == y;
      assert r[if j < i then j else j - 1] == y;
    }
  }

  // ----- Facts about paths

  lemma {:induction false} PathExtend(mode: seq<Mode>, p: nat, q: nat, n: nat)
    requires Path(mode, p, q, n) && q < |mode| && mode[q].Sending?
    ensures Path(mode, p, mode[q].dest, n + 1)
    decreases n
  {
    if n > 0 { PathExtend(mode, mode[p].dest, q, n - 1); }
  }

  /** Turning a cycle by k edges gives a cycle through the node reached. */
  lemma {:induction false} RotateCycle(mode: seq<Mode>, p: nat, q: nat, k: nat, n: nat)
    requires Path(mode, p, p, n) && n > 0 && Path(mode, p, q, k) && p < |mode|
    ensures Path(mode, q, q, n) && (k > 0 || q == p)
    decreases k
  {
    if k > 0 {
      var x := mode[p].dest;
      PathExtend(mode, x, p, n - 1);
      assert x < |mode| by { if n > 1 { assert Path(mode, x, p, n - 1); } }
      RotateCycle(mode, x, q, k - 1, n);
    }
  }

  /** A path of the graph with a new edge out of p is an old path when it starts where p is out
      of reach. */
  lemma {:induction false} PathAvoids(mode: seq<Mode>, p: nat, d: nat, a: nat, b: nat, n: nat)
    requires p < |mode| && Path(mode[p := Sending(d)], a, b, n)
    requires !Reaches(mode, a, p)
    ensures Path(mode, a, b, n)
    decreases n
  {
    if n > 0 {
      assert Path(mode, p, p, 0);
      var x := mode[a].dest;
      if Reaches(mode, x, p) {
        var k: nat :| Path(mode, x, p, k);
        assert Path(mode, a, p, k + 1);
        assert false;
      }
      PathAvoids(mode, p, d, x, b, n - 1);
    }
  }

  lemma {:induction false} PathKept(mode: seq<Mode>, p: nat, d: nat, a: nat, b: nat, n: nat)
    requires p < |mode| && !mode[p].Sending? && Path(mode, a, b, n)
    ensures Path(mode[p := Sending(d)], a, b, n)
    decreases n
  {
    if n > 0 { PathKept(mode, p, d, mode[a].dest, b, n - 1); }
  }

  /** The deadlock check is what keeps the wait-for graph acyclic when a sender blocks. */
  lemma BlockKeepsAcyclic(mode: seq<Mode>, p: nat, d: nat)
    requires Acyclic(mode) && p < |mode| && d < |mode| && !mode[p].Sending?
    ensures Acyclic(mode[p := Sending(d)]) <==> !Reaches(mode, d, p)
  {
    var after := mode[p := Sending(d)];
    if Reaches(mode, d, p) {
      var k: nat :| Path(mode, d, p, k);
      PathKept(mode, p, d, d, p, k);
      assert Path(after, p, p, k + 1);
    } else {
      forall a: nat, n: nat | a < |after| && Path(after, a, a, n) ensures n == 0 {
        if n > 0 {
          if Reaches(mode, a, p) {
            var k: nat :| Path(mode, a, p, k);
            PathKept(mode, p, d, a, p, k);
            RotateCycle(after, a, p, k, n);
            PathAvoids(mode, p, d, d, p, n - 1);
          } else {
            PathAvoids(mode, p, d, a, a, n);
          }
        }
      }
    }
  }

  lemma {:induction false} PathFewerEdges(mode: seq<Mode>, p: nat, m: Mode, a: nat, b: nat, n: nat)
    requires p < |mode| && !m.Sending? && Path(mode[p := m], a, b, n)
    ensures Path(mode, a, b, n)
    decreases n
  {
    if n > 0 { PathFewerEdges(mode, p, m, mode[p := m][a].dest, b, n - 1); }
  }

  lemma UnblockKeepsAcyclic(mode: seq<Mode>, p: nat, m: Mode)
    requires Acyclic(mode) && p < |mode| && !m.Sending?
    ensures Acyclic(mode[p := m])
  {
    var after := mode[p := m];
    forall a: nat, n: nat | a < |after| && Path(after, a, a, n) ensures n == 0 {
      PathFewerEdges(mode, p, m, a, a, n);
    }
  }

  // ----- Every step keeps the invariant

  lemma SendKeepsInv(s: State, p: nat, d: nat, m: Message)
    requires Inv(s) && Enabled(s, Send(p, d, m))
    ensures Inv(SendStep(s, p, d, m))
  {
    var t := SendStep(s, p, d, m);
    if Accepts(s.mode[d], p) {
      UnblockKeepsAcyclic(s.mode, d, Ready);
      forall x: nat | x < NR_SLOTS ensures BoxHoldsSenders(t, x) {
        assert BoxHoldsSenders(s, x);
      }
    } else {
      BlockKeepsAcyclic(s.mode, p, d);
      forall x: nat | x < NR_SLOTS ensures BoxHoldsSenders(t, x) {
        assert BoxHoldsSenders(s, x);
        if x == d {
          assert t.box[d][|s.box[d]|] == p;
          forall q: nat | q < NR_SLOTS && t.mode[q] == Sending(d) ensures q in t.box[d] {
            assert q != p ==> q in s.box[d];
          }
        }
      }
    }
  }

  lemma TakeKeepsInv(s: State, p: nat, q: nat)
    requires Inv(s) && IsPid(p) && s.mode[p] == Ready && q in s.box[p]
    ensures IsPid(q) && Inv(Take(s, p, q))
  {
    assert BoxHoldsSenders(s, p);
    var t := Take(s, p, q);
    UnblockKeepsAcyclic(s.mode, q, Ready);
    WithoutKeeps(s.box[p], q);
    forall x: nat | x < NR_SLOTS ensures BoxHoldsSenders(t, x) {
      assert BoxHoldsSenders(s, x);
      forall i: nat | i < |t.box[x]| ensures t.box[x][i] < NR_SLOTS && t.mode[t.box[x][i]] == Sending(x) {
        assert t.box[x][i] in s.box[x];
      }
    }
    forall x: nat, i: nat | x < |t.box| && i < |t.box[x]| ensures t.box[x][i] < NR_SLOTS {
      assert BoxHoldsSenders(t, x);
    }
  }

  lemma ReceiveKeepsInv(s: State, p: nat, src: int, m: Message)
    requires Inv(s) && Enabled(s, Receive(p, src, m))
    ensures Inv(ReceiveStep(s, p, src, m))
  {
    var s1 := Stamp(s, p, m);
    var t := ReceiveStep(s, p, src, m);
    forall x: nat | x < NR_SLOTS ensures BoxHoldsSenders(s1, x) {
      assert BoxHoldsSenders(s, x);
    }
    if s.intPending[p] && (src == ANY || src == INTERRUPT) {
      forall x: nat | x < NR_SLOTS ensures BoxHoldsSenders(t, x) {
        assert BoxHoldsSenders(s, x);
      }
    } else if src == ANY && s.box[p] != [] {
      TakeKeepsInv(s1, p, s.box[p][0]);
    } else if IsPid(src) && src in s.box[p] {
      TakeKeepsInv(s1, p, src);
    } else {
      UnblockKeepsAcyclic(s.mode, p, Receiving(src));
      assert BoxHoldsSenders(s, p);
      forall x: nat | x < NR_SLOTS ensures BoxHoldsSenders(t, x) {
        assert BoxHoldsSenders(s, x);
      }
    }
  }

  lemma InterruptKeepsInv(s: State, i: nat)
    requires Inv(s) && IsPid(i)
    ensures Inv(InterruptStep(s, i))
  {
    var t := InterruptStep(s, i);
    if AcceptsInterrupt(s.mode[i]) {
      UnblockKeepsAcyclic(s.mode, i, Ready);
    }
    forall x: nat | x < NR_SLOTS ensures BoxHoldsSenders(t, x) {
      assert BoxHoldsSenders(s, x);
    }
  }

  lemma StepKeepsInv(s: State, e: Event)
    requires Inv(s)
    ensures Inv(Step(s, e))
  {
    if Enabled(s, e) {
      match e
      case Send(p, d, m) => SendKeepsInv(s, p, d, m);
      case Receive(p, src, m) => ReceiveKeepsInv(s, p, src, m);
      case Interrupt(t) => InterruptKeepsInv(s, t);
    }
  }
}
