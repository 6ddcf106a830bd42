/** The TTY task's input side (kernel/tty.c): a ring of key codes, drained into the buffer of the
    process that reads, with backspace editing. Echo to the console has no effect here. */
module Tty {

  const TTY_IN_BYTES: nat := 256

  const BACKSPACE: bv8 := 0x08
  const NEWLINE: bv8 := 0x0A

  /** What the TTY tells its caller when a read is complete. */
  datatype Resume = Resume(to: int, procnr: int, count: nat)

  predicate Printable(ch: bv8) {
    0x20 <= ch <= 0x7E
  }

  /** `char ch = key`: the low eight bits. */
  function Char(key: bv32): bv8 {
    (key & 0xFF) as bv8
  }

  function Chars(keys: seq<bv32>): (cs: seq<bv8>)
    ensures |cs| == |keys|
  {
    seq(|keys|, i requires 0 <= i < |keys| => Char(keys[i]))
  }

  // ----- Line editing

  /** A line being typed; `done` when no more keys go into it. */
  datatype Line = Line(text: seq<bv8>, done: bool)

  function Type(text: seq<bv8>, ch: bv8): seq<bv8> {
    if Printable(ch) then text + [ch]
    else if ch == BACKSPACE && text != [] then text[..|text| - 1]
    else text
  }

  function EditStep(line: Line, n: int, ch: bv8): Line {
    if line.done then line
    else var text := Type(line.text, ch); Line(text, ch == NEWLINE || |text| == n)
  }

  /** The line that the keys make for a request of n characters. */
  function Edit(keys: seq<bv8>, n: int): Line {
    if keys == [] then Line([], n == 0) else EditStep(Edit(keys[..|keys| - 1], n), n, keys[|keys| - 1])
  }

  lemma EditAppend(keys: seq<bv8>, ch: bv8, n: int)
    ensures Edit(keys + [ch], n) == EditStep(Edit(keys, n), n, ch)
  {
    assert (keys + [ch])[..|keys|] == keys;
  }

  /** The text never exceeds the request, and fills it only when the line is done. */
  lemma {:induction false} TextFits(keys: seq<bv8>, n: int)
    ensures n >= 0 ==> |Edit(keys, n).text| <= n
    ensures !Edit(keys, n).done ==> |Edit(keys, n).text| != n
  {
    if keys != [] {
      TextFits(keys[..|keys| - 1], n);
    }
  }

  /** Keys after completion have no effect. */
  lemma {:induction false} DoneStays(keys: seq<bv8>, more: seq<bv8>, n: int)
    requires Edit(keys, n).done
    ensures Edit(keys + more, n) == Edit(keys, n)
  {
    if more == [] {
      assert keys + more == keys;
    } else {
      DoneStays(keys, more[..|more| - 1], n);
      EditAppend(keys + more[..|more| - 1], more[|more| - 1], n);
      assert keys + more[..|more| - 1] + [more[|more| - 1]] == keys + more;
    }
  }

  /** Lines that agree go on agreeing. */
  lemma {:induction false} SameFrom(a: seq<bv8>, b: seq<bv8>, more: seq<bv8>, n: int)
    requires Edit(a, n) == Edit(b, n)
    ensures Edit(a + more, n) == Edit(b + more, n)
  {
    if more == [] {
      assert a + more == a && b + more == b;
    } else {
      var init, ch := more[..|more| - 1], more[|more| - 1];
      SameFrom(a, b, init, n);
      EditAppend(a + init, ch, n);
      EditAppend(b + init, ch, n);
      assert a + init + [ch] == a + more && b + init + [ch] == b + more;
    }
  }

  /** A character rubbed out at once might as well not have been typed, wherever in the input it
      stands, unless it was the one that completed the request. */
  lemma RubOut(keys: seq<bv8>, ch: bv8, more: seq<bv8>, n: int)
    requires Printable(ch) && |Edit(keys, n).text| + 1 != n
    ensures Edit(keys + [ch, BACKSPACE] + more, n) == Edit(keys + more, n)
  {
    EditAppend(keys, ch, n);
    EditAppend(keys + [ch], BACKSPACE, n);
    assert keys + [ch] + [BACKSPACE] == keys + [ch, BACKSPACE];
    TextFits(keys, n);
    var text := Edit(keys, n).text;
    assert (text + [ch])[..|text|] == text;
    SameFrom(keys + [ch, BACKSPACE], keys, more, n);
  }

  /** Without editing keys, the first n characters arrive as typed. */
  lemma {:induction false} PlainText(keys: seq<bv8>, n: int)
    requires forall i :: 0 <= i < |keys| ==> Printable(keys[i])
    ensures Edit(keys, n) == if 0 <= n <= |keys| then Line(keys[..n], true) else Line(keys, false)
  {
    if keys != [] {
      var init := keys[..|keys| - 1];
      PlainText(init, n);
      assert keys == init + [keys[|keys| - 1]];
      if 0 <= n <= |init| {
        assert init[..n] == keys[..n];
      }
    }
  }

  /** A request can be completed exactly when it is not for zero characters; one for a negative
      number only by a newline. */
  lemma {:induction false} Answerable(n: int, keys: seq<bv8>)
    ensures (exists ks: seq<bv8> :: !Edit([], n).done && Edit(ks, n).done) <==> n != 0
    ensures n < 0 && NEWLINE !in keys ==> !Edit(keys, n).done
  {
    EditAppend([], NEWLINE, n);
    assert [] + [NEWLINE] == [NEWLINE];
    assert Edit([NEWLINE], n).done;
    if n < 0 && NEWLINE !in keys && keys != [] {
      Answerable(n, keys[..|keys| - 1]);
      assert keys[|keys| - 1] in keys;
    }
  }

  /** `char ch = key` keeps the low eight bits. */
  lemma CharIsLowByte(key: bv32)
    ensures Char(key) as bv32 == key & 0xFF
  {
  }

  /** What one key does to an open line: a character from space to tilde is appended, a backspace takes
      the last one off if there is one, and any other key leaves the text; newline, or the character
      that fills the request, completes the line. */
  lemma OneKey(keys: seq<bv8>, ch: bv8, n: int)
    requires !Edit(keys, n).done
    ensures var text, line := Edit(keys, n).text, Edit(keys + [ch], n);
      && (0x20 <= ch <= 0x7E ==> line.text == text + [ch])
      && (ch == 0x08 && text != [] ==> line.text == text[..|text| - 1])
      && (ch == 0x08 && text == [] ==> line.text == [])
      && (!(0x20 <= ch <= 0x7E) && ch != 0x08 ==> line.text == text)
      && (line.done <==> ch == 0x0A || |line.text| == n)
  {
    EditAppend(keys, ch, n);
  }

  /** Newline completes any open line as it stands. */
  lemma NewlineCompletes(keys: seq<bv8>, n: int)
    requires !Edit(keys, n).done
    ensures Edit(keys + [0x0A], n) == Line(Edit(keys, n).text, true)
  {
    OneKey(keys, 0x0A, n);
  }

  /** Characters short of the request, then newline: the line is what was typed. */
  lemma TypedThenNewline(keys: seq<bv8>, n: int)
    requires (forall i :: 0 <= i < |keys| ==> 0x20 <= keys[i] <= 0x7E) && (n < 0 || |keys| < n)
    ensures Edit(keys + [0x0A], n) == Line(keys, true)
  {
    PlainText(keys, n);
    NewlineCompletes(keys, n);
  }

  lemma NextKey(consumed: seq<bv32>, key: bv32, since: nat, n: int)
    requires since <= |consumed|
    ensures Edit(Chars((consumed + [key])[since..]), n) == EditStep(Edit(Chars(consumed[since..]), n), n, Char(key))
  {
    assert Chars((consumed + [key])[since..]) == Chars(consumed[since..]) + [Char(key)];
    EditAppend(Chars(consumed[since..]), Char(key), n);
  }

  // ----- The terminal

  datatype Event = Key(key: bv32) | Drain | Read(source: int, procnr: int, count: int)

  /** The processes that asked for at least one character. */
  function Asked(events: seq<Event>): seq<int> {
    if events == [] then []
    else
      var e := events[|events| - 1];
      Asked(events[..|events| - 1]) + if e.Read? && e.count != 0 then [e.procnr] else []
  }

  /** The processes resumed so far. */
  function Resumed(log: seq<Resume>): (ps: seq<int>)
    ensures |ps| == |log|
  {
    seq(|log|, i requires 0 <= i < |log| => log[i].procnr)
  }

  // ----- Runs of the terminal, as a user of it sees them

  /** The keys consumed before the current request and since, those waiting in the ring, the request,
      and the resumes sent. */
  datatype State = State(past: seq<bv32>, keys: seq<bv32>, queue: seq<bv32>, n: int, caller: int, procnr: int, resumes: seq<Resume>)

  /** The line made of the keys consumed since the request. */
  function LineOf(a: State): Line {
    Edit(Chars(a.keys), a.n)
  }

  predicate IsOpen(a: State) {
    !LineOf(a).done
  }

  function DrainStep(a: State): State {
    var b := a.(keys := a.keys + a.queue, queue := []);
    if IsOpen(a) && !IsOpen(b) then b.(resumes := b.resumes + [Resume(b.caller, b.procnr, |LineOf(b).text|)]) else b
  }

  function StepOf(a: State, e: Event): State {
    match e
    case Key(key) => if |a.queue| < TTY_IN_BYTES then a.(queue := a.queue + [key]) else a
    case Drain => DrainStep(a)
    case Read(source, proc, n) => a.(past := a.past + a.keys, keys := [], n := n, caller := source, procnr := proc)
  }

  function Run(a: State, es: seq<Event>): State {
    if es == [] then a else StepOf(Run(a, es[..|es| - 1]), es[|es| - 1])
  }

  predicate Replaces(a: State, e: Event) {
    e.Read? && IsOpen(a)
  }

  /** How many requests of a run replace one that is still open. */
  function Lost(a: State, es: seq<Event>): nat {
    if es == [] then 0
    else Lost(a, es[..|es| - 1]) + if Replaces(Run(a, es[..|es| - 1]), es[|es| - 1]) then 1 else 0
  }

  lemma RunNext(a: State, es: seq<Event>, k: nat)
    requires k < |es|
    ensures Run(a, es[..k + 1]) == StepOf(Run(a, es[..k]), es[k])
    ensures Lost(a, es[..k + 1]) == Lost(a, es[..k]) + if Replaces(Run(a, es[..k]), es[k]) then 1 else 0
  {
    assert es[..k + 1][..k] == es[..k];
  }

  /** Once complete, a request stays complete and its line stays as it is. */
  lemma DrainAfterDone(a: State)
    ensures !IsOpen(a) ==> LineOf(DrainStep(a)) == LineOf(a)
  {
    assert Chars(a.keys + a.queue) == Chars(a.keys) + Chars(a.queue);
    if !IsOpen(a) {
      DoneStays(Chars(a.keys), Chars(a.queue), a.n);
    }
  }

  /** The processes resumed, then the one still reading. */
  function Readers(a: State): seq<int> {
    Resumed(a.resumes) + if IsOpen(a) then [a.procnr] else []
  }

  function AskedNow(e: Event): seq<int> {
    if e.Read? && e.count != 0 then [e.procnr] else []
  }

  lemma StepReaders(a: State, e: Event)
    ensures Readers(StepOf(a, e)) == (if Replaces(a, e) then Resumed(a.resumes) else Readers(a)) + AskedNow(e)
  {
    DrainAfterDone(a);
    var b := StepOf(a, e);
    if e.Drain? && IsOpen(a) && !IsOpen(b) {
      assert Resumed(b.resumes) == Resumed(a.resumes) + [a.procnr];
    }
  }

  /** Of the processes that asked in a run, each is resumed once and in order, or is the one still
      reading, or was replaced; with none replaced the resumed ones are those that asked, in order. */
  lemma {:induction false} Balance(a: State, es: seq<Event>)
    ensures |Readers(Run(a, es))| + Lost(a, es) == |Readers(a)| + |Asked(es)|
    ensures Lost(a, es) == 0 ==> Readers(Run(a, es)) == Readers(a) + Asked(es)
  {
    if es != [] {
      var front := es[..|es| - 1];
      Balance(a, front);
      StepReaders(Run(a, front), es[|es| - 1]);
    }
  }

  /** Keys the ring took in during a run: those that found it not full. */
  function Kept(a: State, es: seq<Event>): seq<bv32> {
    if es == [] then []
    else
      var front, e := es[..|es| - 1], es[|es| - 1];
      Kept(a, front) + if e.Key? && |Run(a, front).queue| < TTY_IN_BYTES then [e.key] else []
  }

  function AllKeys(a: State): seq<bv32> {
    a.past + a.keys + a.queue
  }

  /** No key is lost, doubled or reordered between the ring and the lines; the ring never overflows. */
  lemma {:induction false} KeysConserved(a: State, es: seq<Event>)
    requires |a.queue| <= TTY_IN_BYTES
    ensures AllKeys(Run(a, es)) == AllKeys(a) + Kept(a, es) && |Run(a, es).queue| <= TTY_IN_BYTES
  {
    if es != [] {
      var front, e := es[..|es| - 1], es[|es| - 1];
      KeysConserved(a, front);
      KeyStep(Run(a, front), e);
    }
  }

  lemma KeyStep(a: State, e: Event)
    ensures AllKeys(StepOf(a, e)) == AllKeys(a) + if e.Key? && |a.queue| < TTY_IN_BYTES then [e.key] else []
  {
  }

  predicate NoRead(es: seq<Event>) {
    forall i :: 0 <= i < |es| ==> !es[i].Read?
  }

  /** One request, and then any keys and drains: the line is the edited input since the request, and
      exactly one resume, with its length, is sent once it is complete; none for zero characters. */
  lemma {:induction false} OneRequest(a: State, source: int, proc: int, n: int, es: seq<Event>)
    requires NoRead(es)
    ensures var b := Run(StepOf(a, Read(source, proc, n)), es);
      && b.n == n && b.past == a.past + a.keys && b.caller == source && b.procnr == proc
      && b.resumes == a.resumes + if n != 0 && !IsOpen(b) then [Resume(source, proc, |Edit(Chars(b.keys), n).text|)] else []
  {
    if es != [] {
      var front := es[..|es| - 1];
      OneRequest(a, source, proc, n, front);
      DrainAfterDone(Run(StepOf(a, Read(source, proc, n)), front));
      if n == 0 {
        NothingAsked(Chars(Run(StepOf(a, Read(source, proc, n)), front).keys));
      }
    }
  }

  lemma {:induction false} NothingAsked(keys: seq<bv8>)
    ensures Edit(keys, 0) == Line([], true)
  {
    if keys != [] {
      NothingAsked(keys[..|keys| - 1]);
    }
  }

  /** The ring holds 256 keys; one more is dropped. */
  lemma RingHolds256(a: State, key: bv32)
    ensures StepOf(a, Key(key)) == if |a.queue| < 256 then a.(queue := a.queue + [key]) else a
  {
  }

  function Typing(ks: seq<bv32>): (es: seq<Event>)
    ensures |es| == |ks|
  {
    seq(|ks|, i requires 0 <= i < |ks| => Key(ks[i]))
  }

  lemma {:induction false} TypingQueues(a: State, ks: seq<bv32>)
    requires |a.queue| + |ks| <= 256
    ensures Run(a, Typing(ks)) == a.(queue := a.queue + ks)
  {
    if ks == [] {
      assert a.queue + ks == a.queue;
    } else {
      var front := ks[..|ks| - 1];
      assert Typing(ks)[..|ks| - 1] == Typing(front);
      TypingQueues(a, front);
      assert a.queue + front + [ks[|ks| - 1]] == a.queue + ks;
    }
  }

  /** A reader asks for n characters on an idle terminal, fewer than n are typed, and newline: it is
      resumed once, with the number of characters typed, which are its line. */
  lemma LineIsRead(a: State, source: int, proc: int, n: int, ks: seq<bv32>)
    requires a.queue == [] && |ks| < 256 && (n < 0 || |ks| < n)
    requires forall i :: 0 <= i < |ks| ==> 0x20 <= Char(ks[i]) <= 0x7E
    ensures var b := Run(StepOf(a, Read(source, proc, n)), Typing(ks + [0x0A]) + [Drain]);
      b.resumes == a.resumes + [Resume(source, proc, |ks|)] && LineOf(b) == Line(Chars(ks), true) && b.queue == []
  {
    var u := StepOf(a, Read(source, proc, n));
    var es := Typing(ks + [0x0A]);
    assert (es + [Drain])[..|es|] == es;
    TypingQueues(u, ks + [0x0A]);
    assert u.queue + (ks + [0x0A]) == ks + [0x0A];
    var v := Run(u, es);
    assert v.keys + v.queue == ks + [0x0A];
    assert Chars(ks + [0x0A]) == Chars(ks) + [0x0A];
    assert Chars([]) == [];
    TypedThenNewline(Chars(ks), n);
    assert IsOpen(v);
  }

  // ----- The ring and the reader's buffer

  /** `count` cells of the ring from `tail` on, oldest first. */
  ghost function Window(cells: seq<bv32>, tail: nat, count: nat): (q: seq<bv32>)
    requires |cells| == TTY_IN_BYTES && tail < TTY_IN_BYTES && count <= TTY_IN_BYTES
    ensures |q| == count
  {
    seq(count, i requires 0 <= i < count => cells[Around(tail, i)])
  }

  /** The position i steps after k. */
  function Around(k: nat, i: nat): nat {
    if k + i < TTY_IN_BYTES then k + i else k + i - TTY_IN_BYTES
  }

  lemma WindowPut(cells: seq<bv32>, tail: nat, count: nat, key: bv32)
    requires |cells| == TTY_IN_BYTES && tail < TTY_IN_BYTES && count < TTY_IN_BYTES
    ensures Window(cells[Around(tail, count) := key], tail, count + 1) == Window(cells, tail, count) + [key]
  {
  }

  lemma WindowTake(cells: seq<bv32>, tail: nat, count: nat)
    requires |cells| == TTY_IN_BYTES && tail < TTY_IN_BYTES && 0 < count <= TTY_IN_BYTES
    ensures Window(cells, tail, count) == [cells[tail]] + Window(cells, Around(tail, 1), count - 1)
  {
  }

  lemma Regroup(before: seq<bv32>, key: bv32, rest: seq<bv32>)
    ensures before + ([key] + rest) == before + [key] + rest
  {
  }

  /** The counters and the reader's buffer agree with the line; the buffer is never overrun. */
  ghost predicate Agrees(line: Line, n: int, left: int, trans: nat, buffer: seq<bv8>) {
    && trans <= |buffer| && buffer[..trans] == line.text
    && (left == 0 <==> line.done)
    && (!line.done ==> trans + left == n)
    && (n >= 0 ==> |buffer| <= n)
  }

  /** The message r is sent exactly when an open request becomes complete. */
  ghost predicate Sent(left0: int, resumes0: seq<Resume>, left: int, resumes: seq<Resume>, r: Resume) {
    && resumes == resumes0 + (if left0 != 0 && left == 0 then [r] else [])
    && (left0 == 0 ==> left == 0)
  }

  /** One byte written at position k of the reader's buffer. */
  function Poke(buffer: seq<bv8>, k: nat, ch: bv8): (b: seq<bv8>)
    requires k <= |buffer|
    ensures k < |b| && b[..k + 1] == buffer[..k] + [ch]
  {
    if k < |buffer| then buffer[k := ch] else buffer + [ch]
  }

  class Terminal {
    const inBuf: array<bv32>
    var head: nat
    var tail: nat
    var count: nat
    var caller: int
    var procnr: int
    var left: int
    var trans: nat
    /** The bytes written so far at the reader's buffer address. */
    var buffer: seq<bv8>
    /** RESUME_PROC messages sent. */
    var resumes: seq<Resume>

    /** The keys taken out of the ring, and how many were out when the request came. */
    ghost var consumed: seq<bv32>
    ghost var since: nat
    ghost var requested: int

    ghost predicate Ring()
      reads this`head, this`tail, this`count
    {
      && inBuf.Length == TTY_IN_BYTES
      && head < TTY_IN_BYTES && tail < TTY_IN_BYTES && count <= TTY_IN_BYTES
      && head == Around(tail, count)
    }

    /** The keys in the ring, oldest first. */
    ghost function Queue(): (q: seq<bv32>)
      requires Ring()
      reads this`head, this`tail, this`count, inBuf
      ensures |q| == count
    {
      Window(inBuf[..], tail, count)
    }

    /** The line made of the keys consumed since the request. */
    ghost function Current(): Line
      requires since <= |consumed|
      reads this`since, this`consumed, this`requested
    {
      Edit(Chars(consumed[since..]), requested)
    }

    /** The reader's buffer holds the edited line, and the counters add up to the request until it is
        complete. */
    ghost predicate Discipline()
      reads this`since, this`consumed, this`requested, this`left, this`trans, this`buffer
    {
      since <= |consumed| && Agrees(Current(), requested, left, trans, buffer)
    }

    ghost predicate Valid()
      reads this, inBuf
    {
      Ring() && Discipline()
    }

    ghost function Abstract(): State
      requires Valid()
      reads this, inBuf
    {
      State(consumed[..since], consumed[since..], Queue(), requested, caller, procnr, resumes)
    }

    /** init_tty, on zeroed storage. */
    constructor ()
      ensures Valid() && Abstract() == State([], [], [], 0, 0, 0, []) && fresh(inBuf)
    {
      inBuf := new bv32[TTY_IN_BYTES](_ => 0);
      head, tail, count, caller, procnr, left, trans := 0, 0, 0, 0, 0, 0, 0;
      buffer, resumes, consumed, since, requested := [], [], [], 0, 0;
    }

    /** put_key: the ring is a FIFO of at most 256 keys that drops what does not fit. */
    method PutKey(key: bv32)
      requires Valid()
      modifies this`head, this`count, inBuf
      ensures Valid()
      ensures Queue() == if old(count) < TTY_IN_BYTES then old(Queue()) + [key] else old(Queue())
      ensures Abstract() == StepOf(old(Abstract()), Key(key))
    {
      if count < TTY_IN_BYTES {
        WindowPut(inBuf[..], tail, count, key);
        inBuf[head] := key;
        assert inBuf[..] == old(inBuf[..])[old(head) := key];
        head := head + 1;
        if head == TTY_IN_BYTES {
          head := 0;
        }
        count := count + 1;
      }
    }

    /** The oldest key leaves the ring. */
    method TakeKey() returns (ch: bv8)
      requires Ring() && count > 0
      modifies this`tail, this`count
      ensures Ring() && old(Queue()) == [old(inBuf[tail])] + Queue() && ch == Char(old(inBuf[tail]))
    {
      WindowTake(inBuf[..], tail, count);
      ch := Char(inBuf[tail]);
      tail := tail + 1;
      if tail == TTY_IN_BYTES {
        tail := 0;
      }
      count := count - 1;
    }

    /** The body of tty_dev_write's loop for one character. */
    method Feed(ghost key: bv32, ch: bv8)
      requires Discipline() && ch == Char(key)
      modifies this`left, this`trans, this`buffer, this`resumes, this`consumed
      ensures Discipline() && consumed == old(consumed) + [key]
      ensures Sent(old(left), old(resumes), left, resumes, Resume(caller, procnr, |Current().text|))
      ensures old(left) == 0 ==> Current() == old(Current())
    {
      NextKey(consumed, key, since, requested);
      TextFits(Chars(consumed[since..]), requested);
      ghost var line := Current();
      consumed := consumed + [key];
      if left != 0 {
        if Printable(ch) {
          buffer := Poke(buffer, trans, ch);
          trans := trans + 1;
          left := left - 1;
        } else if ch == BACKSPACE && trans > 0 {
          trans := trans - 1;
          left := left + 1;
        }
        assert buffer[..trans] == Type(line.text, ch);
        if ch == NEWLINE || left == 0 {
          resumes := resumes + [Resume(caller, procnr, trans)];
          left := 0;
        }
      }
    }

    /** One turn of tty_dev_write's loop. */
    method Turn()
      requires Valid() && count > 0
      modifies this`tail, this`count, this`left, this`trans, this`buffer, this`resumes, this`consumed
      ensures Valid() && count == old(count) - 1 && consumed + Queue() == old(consumed + Queue()) && since <= |old(consumed)| <= |consumed|
      ensures Sent(old(left), old(resumes), left, resumes, Resume(caller, procnr, |Current().text|))
      ensures old(left) == 0 ==> Current() == old(Current())
    {
      ghost var key := inBuf[tail];
      var ch := TakeKey();
      Regroup(consumed, key, Queue());
      Feed(key, ch);
    }

    /** tty_dev_write: every key in the ring is consumed in order. At most one reader is resumed. */
    method DevWrite()
      requires Valid()
      modifies this`tail, this`count, this`left, this`trans, this`buffer, this`resumes, this`consumed
      ensures Valid() && Abstract() == DrainStep(old(Abstract()))
      ensures Queue() == [] && consumed == old(consumed + Queue())
      ensures Sent(old(left), old(resumes), left, resumes, Resume(caller, procnr, |Current().text|))
    {
      while count > 0
        invariant Valid() && consumed + Queue() == old(consumed + Queue())
        invariant Sent(old(left), old(resumes), left, resumes, Resume(caller, procnr, |Current().text|))
      {
        Turn();
      }
      assert consumed + Queue() == consumed;
      Split(old(consumed), old(Queue()), since);
      assert LineOf(Abstract()) == Current() && LineOf(old(Abstract())) == old(Current());
    }

    /** tty_do_read: a request, which replaces one that is still open. */
    method DoRead(source: int, proc: int, n: int)
      requires Valid()
      modifies this`caller, this`procnr, this`left, this`trans, this`buffer, this`since, this`requested
      ensures Valid() && requested == n && since == |consumed| && left == n && trans == 0 && caller == source && procnr == proc
      ensures Abstract() == StepOf(old(Abstract()), Read(source, proc, n))
    {
      caller, procnr, left, trans := source, proc, n, 0;
      buffer, since, requested := [], |consumed|, n;
      assert Chars(consumed[since..]) == [];
      Whole(consumed, old(since));
    }

    /** One event is a step of the abstract terminal; `lost` when a request replaces one that is still
        open. */
    method Step(e: Event) returns (lost: bool)
      requires Valid()
      modifies this, inBuf
      ensures Valid() && Abstract() == StepOf(old(Abstract()), e) && (lost <==> Replaces(old(Abstract()), e))
    {
      lost := e.Read? && left != 0;
      match e
      case Key(key) => PutKey(key);
      case Drain => DevWrite();
      case Read(source, proc, n) => DoRead(source, proc, n);
    }

    /** Every run is a run of the abstract terminal: of the processes that asked, each is resumed once
        and in order, or is the one still reading, or was replaced by a later request, and `lost`
        counts the last. */
    method Execute(events: seq<Event>) returns (lost: nat)
      requires Valid()
      modifies this, inBuf
      ensures Valid() && Abstract() == Run(old(Abstract()), events) && lost == Lost(old(Abstract()), events)
      ensures left != 0 <==> IsOpen(Abstract())
      ensures buffer[..trans] == LineOf(Abstract()).text && (left != 0 ==> trans + left == Abstract().n)
      ensures |Readers(Abstract())| + lost == |old(Readers(Abstract()))| + |Asked(events)|
      ensures lost == 0 ==> Readers(Abstract()) == old(Readers(Abstract())) + Asked(events)
    {
      lost := 0;
      ghost var a := Abstract();
      for k := 0 to |events|
        invariant Valid() && Abstract() == Run(a, events[..k]) && lost == Lost(a, events[..k])
      {
        RunNext(a, events, k);
        var l := Step(events[k]);
        lost := lost + if l then 1 else 0;
      }
      assert events[..|events|] == events;
      Balance(a, events);
    }
  }

  lemma Split(c: seq<bv32>, q: seq<bv32>, since: nat)
    requires since <= |c|
    ensures (c + q)[..since] == c[..since] && (c + q)[since..] == c[since..] + q
  {
  }

  lemma Whole(c: seq<bv32>, since: nat)
    requires since <= |c|
    ensures c[..|c|] == c[..since] + c[since..] && c[|c|..] == []
  {
  }
}
