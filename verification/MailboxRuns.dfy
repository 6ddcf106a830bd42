/** What holds over whole runs of the message-passing service, from the boot state on. */
module MailboxRuns {
  import opened Config
  import opened Mailboxes

  /** The state after the events `es`; every state it yields satisfies the invariant. */
  ghost function Exec(s: State, es: seq<Event>): (t: State)
    requires Inv(s)
    ensures Inv(t)
  {
    if es == [] then s
    else
      var u := Exec(s, es[..|es| - 1]);
      StepKeepsInv(u, es[|es| - 1]);
      Step(u, es[|es| - 1])
  }

  lemma ExecExtend(s: State, es: seq<Event>, n: nat)
    requires Inv(s) && n < |es|
    ensures Exec(s, es[..n + 1]) == Step(Exec(s, es[..n]), es[n])
  {
    assert es[..n + 1][..n] == es[..n];
  }

  // ----- Conservation

  /** The messages that went into the service from p to d, as handed over plus the true sender. */
  ghost function Accepted(s: State, es: seq<Event>, p: nat, d: nat): seq<Message>
    requires Inv(s)
  {
    if es == [] then []
    else
      var front, e := es[..|es| - 1], es[|es| - 1];
      Accepted(s, front, p, d) + AcceptedNow(Exec(s, front), e, p, d)
  }

  ghost function AcceptedNow(u: State, e: Event, p: nat, d: nat): seq<Message>
    requires Sized(u)
  {
    if e.Send? && e.caller == p && e.dest == d && Enabled(u, e) then [e.msg.(source := p)] else []
  }

  /** The messages process d has been given whose `source` field names p. */
  function Received(got: seq<Delivery>, p: nat, d: nat): seq<Message> {
    if got == [] then []
    else
      var x := got[|got| - 1];
      Received(got[..|got| - 1], p, d) + if x.to == d && x.msg.source == p then [x.msg] else []
  }

  function Pending(s: State, p: nat, d: nat): seq<Message>
    requires p < |s.mode| && p < |s.mem|
  {
    if s.mode[p] == Sending(d) then [s.mem[p]] else []
  }

  lemma ReceivedAppend(got: seq<Delivery>, x: Delivery, p: nat, d: nat)
    ensures Received(got + [x], p, d)
         == Received(got, p, d) + if x.to == d && x.msg.source == p then [x.msg] else []
  {
    assert (got + [x])[..|got|] == got;
  }

  /** What p has had delivered to d, then what it still has pending for d. */
  function Flow(s: State, p: nat, d: nat): seq<Message>
    requires p < |s.mode| && p < |s.mem|
  {
    Received(s.got, p, d) + Pending(s, p, d)
  }

  lemma SendConserves(u: State, e: Event, p: nat, d: nat)
    requires Inv(u) && IsPid(p) && IsPid(d) && e.Send? && Enabled(u, e)
    ensures Flow(Step(u, e), p, d) == Flow(u, p, d) + AcceptedNow(u, e, p, d)
  {
    var m := e.msg.(source := e.caller);
    var t := SendStep(u, e.caller, e.dest, e.msg);
    if Accepts(u.mode[e.dest], e.caller) {
      ReceivedAppend(u.got, Delivery(e.dest, m), p, d);
      assert Pending(t, p, d) == Pending(u, p, d);
      if AcceptedNow(u, e, p, d) != [] {
        assert Pending(u, p, d) == [];
      }
    } else {
      assert t.got == u.got;
    }
  }

  lemma TakeConserves(u: State, r: nat, q: nat, p: nat, d: nat)
    requires Inv(u) && IsPid(p) && IsPid(d) && IsPid(r) && u.mode[r] == Ready && q in u.box[r]
    ensures IsPid(q) && Flow(Take(u, r, q), p, d) == Flow(u, p, d)
  {
    assert BoxHoldsSenders(u, r);
    ReceivedAppend(u.got, Delivery(r, u.mem[q]), p, d);
  }

  lemma ReceiveConserves(u: State, e: Event, p: nat, d: nat)
    requires Inv(u) && IsPid(p) && IsPid(d) && e.Receive? && Enabled(u, e)
    ensures Flow(Step(u, e), p, d) == Flow(u, p, d)
  {
    var r, src := e.caller, e.from;
    var s := Stamp(u, r, e.msg);
    assert Inv(s) by {
      forall x: nat | x < NR_SLOTS ensures BoxHoldsSenders(s, x) { assert BoxHoldsSenders(u, x); }
    }
    assert Flow(s, p, d) == Flow(u, p, d);
    if s.intPending[r] && (src == ANY || src == INTERRUPT) {
      ReceivedAppend(u.got, Delivery(r, INT_MESSAGE), p, d);
    } else if src == ANY && s.box[r] != [] {
      TakeConserves(s, r, s.box[r][0], p, d);
    } else if IsPid(src) && src in s.box[r] {
      TakeConserves(s, r, src, p, d);
    }
  }

  lemma InterruptConserves(u: State, t: nat, p: nat, d: nat)
    requires Inv(u) && IsPid(p) && IsPid(d) && IsPid(t)
    ensures Flow(InterruptStep(u, t), p, d) == Flow(u, p, d)
  {
    ReceivedAppend(u.got, Delivery(t, u.mem[t].(source := INTERRUPT, kind := HARD_INT)), p, d);
  }

  lemma StepConserves(u: State, e: Event, p: nat, d: nat)
    requires Inv(u) && IsPid(p) && IsPid(d)
    ensures Sized(Step(u, e)) && Flow(Step(u, e), p, d) == Flow(u, p, d) + AcceptedNow(u, e, p, d)
  {
    StepKeepsInv(u, e);
    if Enabled(u, e) {
      match e
      case Send(_, _, _) => SendConserves(u, e, p, d);
      case Receive(_, _, _) => ReceiveConserves(u, e, p, d);
      case Interrupt(t) => InterruptConserves(u, t, p, d);
    }
  }

  /** Each message accepted from p for d is delivered to d exactly once, intact and in order, or
      is the one still pending, with p blocked on it. */
  lemma {:induction false} Conservation(s: State, es: seq<Event>, p: nat, d: nat)
    requires Initial(s) && IsPid(p) && IsPid(d)
    ensures Accepted(s, es, p, d)
         == Received(Exec(s, es).got, p, d) + Pending(Exec(s, es), p, d)
  {
    if es != [] {
      var front := es[..|es| - 1];
      Conservation(s, front, p, d);
      StepConserves(Exec(s, front), es[|es| - 1], p, d);
    }
  }

  predicate FromProcessOrInterrupt(x: Delivery) {
    IsPid(x.msg.source) || (x.msg.source == INTERRUPT && x.msg.kind == HARD_INT)
  }

  /** Nothing else is ever delivered but interrupt notices. */
  lemma {:induction false} DeliveriesAreGenuine(s: State, es: seq<Event>)
    requires Initial(s)
    ensures forall i :: 0 <= i < |Exec(s, es).got| ==> FromProcessOrInterrupt(Exec(s, es).got[i])
  {
    if es != [] {
      var front, e := es[..|es| - 1], es[|es| - 1];
      DeliveriesAreGenuine(s, front);
      var u := Exec(s, front);
      if Enabled(u, e) && e.Receive? {
        assert BoxHoldsSenders(u, e.caller);
      }
    }
  }

  // ----- Every receive gets one message, every interrupt is told once

  /** How many messages d has been given. */
  function GivenTo(got: seq<Delivery>, d: nat): nat {
    if got == [] then 0 else GivenTo(got[..|got| - 1], d) + if got[|got| - 1].to == d then 1 else 0
  }

  lemma GivenAppend(got: seq<Delivery>, x: Delivery, d: nat)
    ensures GivenTo(got + [x], d) == GivenTo(got, d) + if x.to == d then 1 else 0
  {
    assert (got + [x])[..|got|] == got;
  }

  /** How often p has called receive. */
  ghost function Receives(s: State, es: seq<Event>, p: nat): nat
    requires Inv(s)
  {
    if es == [] then 0
    else
      var front, e := es[..|es| - 1], es[|es| - 1];
      Receives(s, front, p) + if Calls(Exec(s, front), e, p) then 1 else 0
  }

  function Waits(m: Mode): nat {
    if m.Receiving? then 1 else 0
  }

  ghost predicate Calls(u: State, e: Event, p: nat)
    requires Sized(u)
  {
    e.Receive? && e.caller == p && Enabled(u, e)
  }

  lemma TakeAnswers(u: State, r: nat, q: nat, p: nat)
    requires Inv(u) && IsPid(p) && IsPid(r) && u.mode[r] == Ready && q in u.box[r]
    ensures IsPid(q) && GivenTo(Take(u, r, q).got, p) == GivenTo(u.got, p) + (if r == p then 1 else 0)
    ensures Waits(Take(u, r, q).mode[p]) == Waits(u.mode[p])
  {
    assert BoxHoldsSenders(u, r);
    GivenAppend(u.got, Delivery(r, u.mem[q]), p);
  }

  lemma ReceiveAnswers(u: State, e: Event, p: nat)
    requires Inv(u) && IsPid(p) && e.Receive? && Enabled(u, e)
    ensures var t := Step(u, e);
      Sized(t) && GivenTo(t.got, p) + Waits(t.mode[p]) == GivenTo(u.got, p) + Waits(u.mode[p]) + if e.caller == p then 1 else 0
  {
    var r, src := e.caller, e.from;
    var s := Stamp(u, r, e.msg);
    assert Inv(s) by {
      forall x: nat | x < NR_SLOTS ensures BoxHoldsSenders(s, x) { assert BoxHoldsSenders(u, x); }
    }
    if s.intPending[r] && (src == ANY || src == INTERRUPT) {
      GivenAppend(u.got, Delivery(r, INT_MESSAGE), p);
    } else if src == ANY && s.box[r] != [] {
      TakeAnswers(s, r, s.box[r][0], p);
    } else if IsPid(src) && src in s.box[r] {
      TakeAnswers(s, r, src, p);
    }
  }

  lemma StepAnswers(u: State, e: Event, p: nat)
    requires Inv(u) && IsPid(p)
    ensures var t := Step(u, e);
      && Sized(t)
      && GivenTo(t.got, p) + Waits(t.mode[p]) == GivenTo(u.got, p) + Waits(u.mode[p]) + if Calls(u, e, p) then 1 else 0
  {
    StepKeepsInv(u, e);
    if Enabled(u, e) {
      match e
      case Send(q, d, m) => GivenAppend(u.got, Delivery(d, m.(source := q)), p);
      case Receive(_, _, _) => ReceiveAnswers(u, e, p);
      case Interrupt(t) => GivenAppend(u.got, Delivery(t, u.mem[t].(source := INTERRUPT, kind := HARD_INT)), p);
    }
  }

  /** Over every run each call of receive is answered with exactly one message, but for one the caller
      is still blocked in. */
  lemma {:induction false} ReceivesAreAnswered(s: State, es: seq<Event>, p: nat)
    requires Initial(s) && IsPid(p)
    ensures Receives(s, es, p) == GivenTo(Exec(s, es).got, p) + Waits(Exec(s, es).mode[p])
  {
    if es != [] {
      var front := es[..|es| - 1];
      ReceivesAreAnswered(s, front, p);
      StepAnswers(Exec(s, front), es[|es| - 1], p);
    }
  }

  /** How many interrupt messages t has been given. */
  function Told(got: seq<Delivery>, t: nat): nat {
    if got == [] then 0
    else Told(got[..|got| - 1], t) + if got[|got| - 1].to == t && got[|got| - 1].msg.source == INTERRUPT then 1 else 0
  }

  lemma ToldAppend(got: seq<Delivery>, x: Delivery, t: nat)
    ensures Told(got + [x], t) == Told(got, t) + if x.to == t && x.msg.source == INTERRUPT then 1 else 0
  {
    assert (got + [x])[..|got|] == got;
  }

  /** The interrupts for t that did not find one already pending. */
  ghost function Raised(s: State, es: seq<Event>, t: nat): nat
    requires Inv(s) && IsPid(t)
  {
    if es == [] then 0
    else
      var front := es[..|es| - 1];
      Raised(s, front, t) + if es[|es| - 1] == Interrupt(t) && !Exec(s, front).intPending[t] then 1 else 0
  }

  function Held(pending: bool): nat {
    if pending then 1 else 0
  }

  lemma TakeTells(u: State, r: nat, q: nat, p: nat)
    requires Inv(u) && IsPid(p) && IsPid(r) && u.mode[r] == Ready && q in u.box[r]
    ensures IsPid(q) && Told(Take(u, r, q).got, p) == Told(u.got, p) && Take(u, r, q).intPending == u.intPending
  {
    assert BoxHoldsSenders(u, r);
    ToldAppend(u.got, Delivery(r, u.mem[q]), p);
  }

  lemma ReceiveTells(u: State, e: Event, p: nat)
    requires Inv(u) && IsPid(p) && e.Receive? && Enabled(u, e)
    ensures var t := Step(u, e);
      Sized(t) && Told(t.got, p) + Held(t.intPending[p]) == Told(u.got, p) + Held(u.intPending[p])
  {
    var r, src := e.caller, e.from;
    var s := Stamp(u, r, e.msg);
    assert Inv(s) by {
      forall x: nat | x < NR_SLOTS ensures BoxHoldsSenders(s, x) { assert BoxHoldsSenders(u, x); }
    }
    if s.intPending[r] && (src == ANY || src == INTERRUPT) {
      ToldAppend(u.got, Delivery(r, INT_MESSAGE), p);
    } else if src == ANY && s.box[r] != [] {
      TakeTells(s, r, s.box[r][0], p);
    } else if IsPid(src) && src in s.box[r] {
      TakeTells(s, r, src, p);
    }
  }

  lemma StepTells(u: State, e: Event, p: nat)
    requires Inv(u) && IsPid(p)
    ensures var t := Step(u, e);
      && Sized(t)
      && Told(t.got, p) + Held(t.intPending[p])
         == Told(u.got, p) + Held(u.intPending[p]) + if e == Interrupt(p) && !u.intPending[p] then 1 else 0
  {
    StepKeepsInv(u, e);
    if Enabled(u, e) {
      match e
      case Send(q, d, m) => ToldAppend(u.got, Delivery(d, m.(source := q)), p);
      case Receive(_, _, _) => ReceiveTells(u, e, p);
      case Interrupt(t) => ToldAppend(u.got, Delivery(t, u.mem[t].(source := INTERRUPT, kind := HARD_INT)), p);
    }
  }

  /** Over every run each such interrupt is told to its task exactly once, or is still pending. */
  lemma {:induction false} InterruptsAreTold(s: State, es: seq<Event>, t: nat)
    requires Initial(s) && IsPid(t)
    ensures Raised(s, es, t) == Told(Exec(s, es).got, t) + Held(Exec(s, es).intPending[t])
  {
    if es != [] {
      var front := es[..|es| - 1];
      InterruptsAreTold(s, front, t);
      StepTells(Exec(s, front), es[|es| - 1], t);
    }
  }

  /** A pending interrupt is told before any message, and the queue is left alone. */
  lemma InterruptFirst(u: State, p: nat, src: int, m: Message)
    requires Inv(u) && Enabled(u, Receive(p, src, m)) && u.intPending[p] && (src == ANY || src == INTERRUPT)
    ensures var t := Step(u, Receive(p, src, m));
      && t.mode == u.mode && t.box == u.box && t.intPending == u.intPending[p := false]
      && t.mem == u.mem[p := Message(INTERRUPT, HARD_INT, [])]
      && t.got == u.got + [Delivery(p, Message(INTERRUPT, HARD_INT, []))]
  {
  }

  /** An interrupt wakes a task that waits for ANY or for interrupts, and no other. */
  lemma InterruptWakes(u: State, t: nat)
    requires Inv(u) && IsPid(t)
    ensures var v := Step(u, Interrupt(t));
      && v.box == u.box && (forall p: nat :: p < NR_SLOTS && p != t ==> v.mode[p] == u.mode[p] && v.mem[p] == u.mem[p] && v.intPending[p] == u.intPending[p])
      && if u.mode[t] == Receiving(ANY) || u.mode[t] == Receiving(INTERRUPT) then
           var m := Message(INTERRUPT, HARD_INT, u.mem[t].body);
           v.mode[t] == Ready && !v.intPending[t] && v.mem[t] == m && v.got == u.got + [Delivery(t, m)]
         else v.mode[t] == u.mode[t] && v.intPending[t] && v.mem[t] == u.mem[t] && v.got == u.got
  {
  }

  lemma ExecTwo(s: State, e: Event, f: Event)
    requires Inv(s)
    ensures Inv(Step(s, e)) && Exec(s, [e, f]) == Step(Step(s, e), f)
  {
    StepKeepsInv(s, e);
    assert [e, f][..1] == [e] && [e][..0] == [];
    assert Exec(s, [e]) == Step(s, e);
  }

  lemma SendThenReceive(s: State, p: nat, d: nat, src: int, m: Message, x: Message)
    requires Initial(s) && IsPid(p) && IsPid(d) && p != d && s.mode[p] == Ready && s.mode[d] == Ready && (src == p || src == ANY)
    ensures var a := Exec(s, [Send(p, d, m), Receive(d, src, x)]);
      var sent := Message(p, m.kind, m.body);
      a.got == [Delivery(d, sent)] && a.mode == s.mode && a.box == s.box && a.mem == s.mem[p := sent][d := sent]
  {
    ExecTwo(s, Send(p, d, m), Receive(d, src, x));
    assert !Reaches(s.mode, d, p) by {
      forall n: nat ensures !Path(s.mode, d, p, n) {
      }
    }
    var u := Step(s, Send(p, d, m));
    assert u == SendStep(s, p, d, m);
    assert u.box[d] == [p] && Without([p], p) == [];
    assert u.mem[d] == s.mem[d] && u.mode[d] == Ready;
    var a := Step(u, Receive(d, src, x));
    assert a.got == [Delivery(d, u.mem[p])];
  }

  lemma ReceiveThenSend(s: State, p: nat, d: nat, src: int, m: Message, x: Message)
    requires Initial(s) && IsPid(p) && IsPid(d) && p != d && s.mode[p] == Ready && s.mode[d] == Ready && (src == p || src == ANY)
    ensures var b := Exec(s, [Receive(d, src, x), Send(p, d, m)]);
      var sent := Message(p, m.kind, m.body);
      b.got == [Delivery(d, sent)] && b.mode == s.mode && b.box == s.box && b.mem == s.mem[p := sent][d := sent]
  {
    ExecTwo(s, Receive(d, src, x), Send(p, d, m));
    var v := Step(s, Receive(d, src, x));
    assert v.mode == s.mode[d := Receiving(src)];
    assert !Reaches(v.mode, d, p) by {
      forall n: nat ensures !Path(v.mode, d, p, n) {
      }
    }
    var b := Step(v, Send(p, d, m));
    assert b == SendStep(v, p, d, m);
  }

  /** From boot, a send and a receive that accepts it meet in either order, with the same outcome. */
  lemma Rendezvous(s: State, p: nat, d: nat, src: int, m: Message, x: Message)
    requires Initial(s) && IsPid(p) && IsPid(d) && p != d && s.mode[p] == Ready && s.mode[d] == Ready && (src == p || src == ANY)
    ensures Exec(s, [Send(p, d, m), Receive(d, src, x)]).got == [Delivery(d, Message(p, m.kind, m.body))]
    ensures var a, b := Exec(s, [Send(p, d, m), Receive(d, src, x)]), Exec(s, [Receive(d, src, x), Send(p, d, m)]);
      a.got == b.got && a.mode == b.mode == s.mode && a.box == b.box == s.box && a.mem == b.mem
  {
    SendThenReceive(s, p, d, src, m, x);
    ReceiveThenSend(s, p, d, src, m, x);
  }

  // ----- First come, first served

  /** One more than the position of the last send by p, or zero. */
  ghost function LastSend(s: State, es: seq<Event>, p: nat): nat
    requires Inv(s)
  {
    if es == [] then 0
    else
      var front, e := es[..|es| - 1], es[|es| - 1];
      if e.Send? && e.caller == p && Enabled(Exec(s, front), e) then |es| else LastSend(s, front, p)
  }

  lemma {:induction false} LastSendBounded(s: State, es: seq<Event>, p: nat)
    requires Inv(s)
    ensures LastSend(s, es, p) <= |es|
  {
    if es != [] { LastSendBounded(s, es[..|es| - 1], p); }
  }

  ghost predicate InArrivalOrder(s: State, es: seq<Event>, q: seq<nat>)
    requires Inv(s)
  {
    forall i, j :: 0 <= i < j < |q| ==> LastSend(s, es, q[i]) < LastSend(s, es, q[j])
  }

  lemma TakeOnBox(u: State, e: Event, d: nat)
    requires Inv(u) && IsPid(d) && e.Receive? && Enabled(u, e) && Step(u, e).box[d] != u.box[d]
    ensures exists i :: 0 <= i < |u.box[d]| && Step(u, e).box[d] == u.box[d][..i] + u.box[d][i + 1..]
  {
    var b, b' := u.box[d], ReceiveStep(u, e.caller, e.from, e.msg).box[d];
    assert BoxHoldsSenders(u, d) && d == e.caller;
    var x := if e.from == ANY then b[0] else e.from;
    assert b' == Without(b, x);
    var i :| 0 <= i < |b| && b[i] == x;
    WithoutAt(b, i);
  }

  /** A step leaves a mailbox alone, appends its caller, or removes one member. */
  lemma StepOnBox(u: State, e: Event, d: nat)
    requires Inv(u) && IsPid(d)
    ensures var b, b' := u.box[d], Step(u, e).box[d];
      || b' == b
      || (e.Send? && Enabled(u, e) && b' == b + [e.caller])
      || (!e.Send? && exists i :: 0 <= i < |b| && b' == b[..i] + b[i + 1..])
  {
    var b, b' := u.box[d], Step(u, e).box[d];
    if b' != b && e.Receive? {
      TakeOnBox(u, e, d);
    }
  }

  /** Every mailbox lists its senders in the order in which they blocked. */
  lemma {:induction false} MailboxesAreFifo(s: State, es: seq<Event>, d: nat)
    requires Initial(s) && IsPid(d)
    ensures InArrivalOrder(s, es, Exec(s, es).box[d])
  {
    if es != [] {
      var front, e := es[..|es| - 1], es[|es| - 1];
      var u, t := Exec(s, front), Exec(s, es);
      var b := u.box[d];
      MailboxesAreFifo(s, front, d);
      StepOnBox(u, e, d);
      forall i | 0 <= i < |b| ensures LastSend(s, es, b[i]) == LastSend(s, front, b[i]) < |es| {
        assert BoxHoldsSenders(u, d);
        LastSendBounded(s, front, b[i]);
      }
      assert InArrivalOrder(s, es, b);
    }
  }

  /** RECEIVE ANY with no interrupt pending hands over the message of the longest-blocked sender. */
  lemma AnyTakesLongestBlocked(s: State, es: seq<Event>, p: nat, m: Message, q: nat) returns (first: nat)
    requires Initial(s)
    requires var u := Exec(s, es);
      Enabled(u, Receive(p, ANY, m)) && !u.intPending[p] && IsPid(q) && u.mode[q] == Sending(p)
    ensures var u, t := Exec(s, es), Exec(s, es + [Receive(p, ANY, m)]);
      && IsPid(first) && u.mode[first] == Sending(p) && LastSend(s, es, first) <= LastSend(s, es, q)
      && t.got == u.got + [Delivery(p, u.mem[first])] && t.mem[p] == u.mem[first]
      && t.mode == u.mode[first := Ready]
      && t.box == u.box[p := u.box[p][1..]] && u.box[p][0] == first
  {
    var u := Exec(s, es);
    assert (es + [Receive(p, ANY, m)])[..|es|] == es;
    assert BoxHoldsSenders(u, p);
    MailboxesAreFifo(s, es, p);
    first := u.box[p][0];
  }

  /** RECEIVE from one process removes just that sender, wherever it queues. */
  lemma SelectiveReceive(u: State, p: nat, src: nat, m: Message) returns (i: nat)
    requires Inv(u) && IsPid(src) && Enabled(u, Receive(p, src, m)) && u.mode[src] == Sending(p)
    ensures var t := Step(u, Receive(p, src, m));
      && i < |u.box[p]| && u.box[p][i] == src
      && t.box == u.box[p := u.box[p][..i] + u.box[p][i + 1..]]
      && t.mode == u.mode[src := Ready]
      && t.got == u.got + [Delivery(p, u.mem[src])] && t.mem[p] == u.mem[src]
  {
    assert BoxHoldsSenders(u, p);
    i :| 0 <= i < |u.box[p]| && u.box[p][i] == src;
    WithoutAt(u.box[p], i);
  }

  // ----- The assertion at the end of a blocking receive

  /** A receive blocks its caller with an interrupt pending exactly when it names one process that
      is not sending to it. */
  lemma BlockedWithInterrupt(u: State, p: nat, src: int, m: Message)
    requires Inv(u) && Enabled(u, Receive(p, src, m))
    ensures var t := Step(u, Receive(p, src, m));
      t.mode[p].Receiving? && t.intPending[p]
      <==> u.intPending[p] && IsPid(src) && u.mode[src] != Sending(p)
  {
    assert BoxHoldsSenders(u, p);
  }

  /** Such a state is reachable: an interrupt for task HD (2), which then waits for SYS (1). */
  lemma InterruptedSelectiveReceive(s: State, m: Message)
    requires Initial(s) && s.mode[2] == Ready
    ensures var t := Exec(s, [Interrupt(2), Receive(2, 1, m)]);
      t.mode[2] == Receiving(1) && t.intPending[2]
  {
    var es := [Interrupt(2), Receive(2, 1, m)];
    assert es[..1] == [Interrupt(2)] && es[..1][..0] == [];
    assert BoxHoldsSenders(s, 2);
    assert Exec(s, [Interrupt(2)]) == InterruptStep(s, 2);
  }
}
