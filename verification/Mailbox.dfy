/**
 `mailbox_t`: commands from any number of sender threads to one receiver. Senders take turns at the
 queue under a lock, but raise the signal only after they have released it. A step is one atomic
 action of one thread.
 */
module Mailbox {
  import opened Bytes
  import Y = YPipe

  type Sender = nat

  datatype Command = Command(from: Sender, body: nat)

  /** Where a sender is in `send`. */
  datatype SenderPc =
    | Outside
    | Holding(cmd: Command)      // has the lock
    | Written                    // has written the command
    | Flushing                   // found the reader asleep in `flush`
    | Unlocking(ok: bool)        // `flush` returned `ok`
    | OwesSignal                 // has released the lock, must still signal

  /** Where the receiver is in `recv`. */
  datatype ReceiverPc = Away | Reading | Waiting | Woken | Taking

  datatype Box = Box(
    q: Y.Pipe<Command>,
    lock: Option<Sender>,
    pc: map<Sender, SenderPc>,
    signals: nat,                          // sent and not yet received
    active: bool,
    rpc: ReceiverPc,
    ok: bool,                              // no assertion has failed
    issued: map<Sender, seq<Command>>)     // the commands of every sender, in the order of its calls

  function PcOf(b: Box, s: Sender): SenderPc {
    if s in b.pc then b.pc[s] else Outside
  }

  function IssuedBy(b: Box, s: Sender): seq<Command> {
    if s in b.issued then b.issued[s] else []
  }

  /** The constructor: the reader starts asleep. */
  const New := Box(Y.New().CheckRead(), None, map[], 0, false, Away, true, map[])

  datatype Action =
    | Send(s: Sender, body: nat)     // call `send` and get the lock
    | Continue(s: Sender)            // the next step of a `send`
    | Receive                        // call `recv`, or the next step of it
    | Timeout                        // give up waiting

  function SenderStep(b: Box, s: Sender): Box {
    match PcOf(b, s)
    case Outside => b
    case Holding(cmd) => b.(q := b.q.Write(cmd, false), pc := b.pc[s := Written])
    case Written =>
      var q := b.q.FlushCas();
      b.(q := q, pc := b.pc[s := if q.flushing then Flushing else Unlocking(true)])
    case Flushing => b.(q := b.q.FlushSet(), pc := b.pc[s := Unlocking(false)])
    case Unlocking(ok) => b.(lock := None, pc := b.pc[s := if ok then Outside else OwesSignal])
    case OwesSignal => b.(signals := b.signals + 1, pc := b.pc[s := Outside])
  }

  function ReceiverStep(b: Box): Box {
    match b.rpc
    case Away => b.(rpc := if b.active then Reading else Waiting)
    case Reading =>
      var q := b.q.CheckRead();
      if q.Prefetched() then b.(q := q, rpc := Taking) else b.(q := q, active := false, rpc := Waiting)
    case Waiting => if b.signals == 0 then b else b.(signals := b.signals - 1, active := true, rpc := Woken)
    case Woken =>
      var q := b.q.CheckRead();
      if q.Prefetched() then b.(q := q, rpc := Taking) else b.(q := q, ok := false, rpc := Away)
    case Taking => b.(q := b.q.Take(), rpc := Away)
  }

  function Step(b: Box, act: Action): Box {
    match act
    case Send(s, body) =>
      if PcOf(b, s) == Outside && b.lock == None
      then b.(lock := Some(s), pc := b.pc[s := Holding(Command(s, body))],
              issued := b.issued[s := IssuedBy(b, s) + [Command(s, body)]])
      else b
    case Continue(s) => SenderStep(b, s)
    case Receive => ReceiverStep(b)
    case Timeout => if b.rpc == Waiting then b.(rpc := Away) else b
  }

  function Run(acts: seq<Action>): Box {
    if acts == [] then New else Step(Run(acts[..|acts| - 1]), acts[|acts| - 1])
  }

  // ---------------------------------------------------------------- invariants

  predicate InLock(pc: SenderPc) {
    pc.Holding? || pc == Written || pc == Flushing || pc.Unlocking?
  }

  predicate Owes(pc: SenderPc) {
    pc == OwesSignal || pc == Unlocking(false)
  }

  ghost function Owing(b: Box): set<Sender> {
    set s | s in b.pc && Owes(b.pc[s])
  }

  /** One sender at a time works on the queue, and what it has to flush is known from where it is. */
  ghost predicate Exclusive(b: Box) {
    && (forall s: Sender :: InLock(PcOf(b, s)) <==> b.lock == Some(s))
    && QueueAt(b.q, if b.lock.Some? then PcOf(b, b.lock.value) else Outside)
  }

  /** The queue when the sender that has the lock, if any, is at `pc`. */
  predicate QueueAt(q: Y.Pipe<Command>, pc: SenderPc) {
    && q.Valid() && q.f == |q.items|
    && (q.flushing <==> pc == Flushing)
    && (q.w < q.f <==> pc == Written || pc == Flushing)
  }

  /**
   A receiver that is not active is asleep on an empty queue and no signal is on its way, or exactly
   one signal is pending or owed and the queue is not empty. An active one is awake and has no signal.
   */
  ghost predicate Signalled(b: Box) {
    && b.ok
    && (b.rpc == Reading || b.rpc == Woken || b.rpc == Taking ==> b.active)
    && (b.rpc == Waiting ==> !b.active)
    && (b.rpc == Woken ==> b.q.front < b.q.w)
    && (b.rpc == Taking ==> b.q.Prefetched())
    && SignalsDue(|Owing(b)| + b.signals, b.active, b.q)
  }

  predicate SignalsDue(n: nat, active: bool, q: Y.Pipe<Command>) {
    if active then n == 0 && q.c.Some?
    else if q.c.None? then n == 0
    else n == 1 && q.front < q.w
  }

  /** The commands of one sender among those written. */
  function From(cmds: seq<Command>, s: Sender): seq<Command> {
    if cmds == [] then []
    else From(cmds[..|cmds| - 1], s) + if cmds[|cmds| - 1].from == s then [cmds[|cmds| - 1]] else []
  }

  /** Everything a sender issued is written, except the command it holds. */
  ghost predicate Written1(b: Box, s: Sender) {
    IssuedBy(b, s) == From(b.q.items, s) + if PcOf(b, s).Holding? then [PcOf(b, s).cmd] else []
  }

  ghost predicate Ordered(b: Box) {
    && (forall s: Sender {:trigger Written1(b, s)} :: Written1(b, s))
    && (forall s: Sender :: PcOf(b, s).Holding? ==> PcOf(b, s).cmd.from == s)
  }

  ghost predicate Inv(b: Box) {
    Exclusive(b) && Signalled(b) && Ordered(b)
  }

  lemma OwingAfter(b: Box, s: Sender, pc: SenderPc)
    ensures Owing(b.(pc := b.pc[s := pc])) == Owing(b) - {s} + if Owes(pc) then {s} else {}
    ensures s in Owing(b) <==> Owes(PcOf(b, s))
  {
  }

  lemma NewInv()
    ensures Inv(New)
  {
    assert Owing(New) == {};
    forall s: Sender ensures Written1(New, s) { }
  }

  // ---------------------------------------------------------------- the queue and the lock

  lemma WriterSteps(q: Y.Pipe<Command>, cmd: Command)
    requires q.Valid()
    ensures QueueAt(q, Holding(cmd)) ==> QueueAt(q.Write(cmd, false), Written)
    ensures QueueAt(q, Written) ==> var p := q.FlushCas(); QueueAt(p, if p.flushing then Flushing else Unlocking(true))
    ensures QueueAt(q, Flushing) ==> QueueAt(q.FlushSet(), Unlocking(false))
  {
  }

  lemma ReaderSteps(q: Y.Pipe<Command>, pc: SenderPc)
    requires QueueAt(q, pc)
    ensures QueueAt(q.CheckRead(), pc)
    ensures q.Prefetched() ==> QueueAt(q.Take(), pc)
  {
  }

  lemma SenderKeepsExclusive(b: Box, s: Sender)
    requires Exclusive(b)
    ensures Exclusive(SenderStep(b, s))
  {
    var pc := PcOf(b, s);
    if InLock(pc) {
      WriterSteps(b.q, if pc.Holding? then pc.cmd else Command(s, 0));
      LockHeld(b, SenderStep(b, s), s);
    } else {
      LockHeld(b, SenderStep(b, s), s);
    }
  }

  /** A step of `s` changes only where `s` is, and the lock only from or to `s`. */
  lemma LockHeld(b: Box, t: Box, s: Sender)
    requires forall x: Sender :: InLock(PcOf(b, x)) <==> b.lock == Some(x)
    requires t == SenderStep(b, s)
    ensures forall x: Sender :: InLock(PcOf(t, x)) <==> t.lock == Some(x)
    ensures forall x: Sender :: x != s ==> PcOf(t, x) == PcOf(b, x)
  {
    forall x: Sender | x != s ensures PcOf(t, x) == PcOf(b, x) { }
  }

  lemma SendKeepsExclusive(b: Box, s: Sender, body: nat)
    requires Exclusive(b)
    ensures Exclusive(Step(b, Send(s, body)))
  {
    var t := Step(b, Send(s, body));
    assert forall x: Sender :: x != s ==> PcOf(t, x) == PcOf(b, x);
  }

  lemma ReceiverFrame(b: Box)
    ensures var t := ReceiverStep(b); t.pc == b.pc && t.lock == b.lock && t.issued == b.issued && t.q.items == b.q.items
  {
  }

  lemma ReceiverKeepsExclusive(b: Box)
    requires Exclusive(b) && (b.rpc == Taking ==> b.q.Prefetched())
    ensures Exclusive(ReceiverStep(b))
  {
    var t := ReceiverStep(b);
    ReceiverFrame(b);
    ReaderSteps(b.q, if b.lock.Some? then PcOf(b, b.lock.value) else Outside);
    assert forall x: Sender :: PcOf(t, x) == PcOf(b, x);
  }

  // ---------------------------------------------------------------- signals

  lemma SenderKeepsSignalled(b: Box, s: Sender)
    requires Exclusive(b) && Signalled(b)
    ensures Signalled(SenderStep(b, s))
  {
    OwedAfter(b, s);
  }

  lemma OwedAfter(b: Box, s: Sender)
    ensures var t := SenderStep(b, s);
            |Owing(t)| == |Owing(b)| - (if Owes(PcOf(b, s)) then 1 else 0) + if Owes(PcOf(t, s)) then 1 else 0
  {
    var t := SenderStep(b, s);
    if PcOf(b, s) != Outside {
      OwingAfter(b, s, t.pc[s]);
      assert Owing(t) == Owing(b.(pc := b.pc[s := t.pc[s]]));
      OneLess(Owing(b), s);
      OneMore(Owing(b) - {s}, s);
    }
  }

  lemma OneLess(x: set<Sender>, s: Sender)
    ensures |x - {s}| == if s in x then |x| - 1 else |x|
  {
    if s !in x { assert x - {s} == x; }
  }

  lemma OneMore(x: set<Sender>, s: Sender)
    requires s !in x
    ensures |x + {s}| == |x| + 1 && x + {} == x
  {
  }

  lemma SendKeepsSignalled(b: Box, s: Sender, body: nat)
    requires Signalled(b)
    ensures Signalled(Step(b, Send(s, body)))
  {
    var t := Step(b, Send(s, body));
    if PcOf(b, s) == Outside && b.lock == None {
      OwingAfter(b, s, Holding(Command(s, body)));
      assert Owing(t) == Owing(b);
    }
  }

  lemma ReceiverKeepsSignalled(b: Box)
    requires Exclusive(b) && Signalled(b)
    ensures Signalled(ReceiverStep(b))
  {
    var t := ReceiverStep(b);
    assert Owing(t) == Owing(b);
  }

  // ---------------------------------------------------------------- order

  lemma FromAppend(cmds: seq<Command>, c: Command, s: Sender)
    ensures From(cmds + [c], s) == From(cmds, s) + if c.from == s then [c] else []
  {
    assert (cmds + [c])[..|cmds|] == cmds;
  }

  lemma SenderKeepsOrdered(b: Box, s: Sender)
    requires Ordered(b)
    ensures Ordered(SenderStep(b, s))
  {
    var t := SenderStep(b, s);
    SenderFrame(b, s);
    forall x: Sender ensures Written1(t, x) && (PcOf(t, x).Holding? ==> PcOf(t, x).cmd.from == x) {
      assert Written1(b, x);
      if PcOf(b, s).Holding? { FromAppend(b.q.items, PcOf(b, s).cmd, x); }
    }
  }

  lemma SenderFrame(b: Box, s: Sender)
    ensures var t := SenderStep(b, s);
            && t.issued == b.issued && !PcOf(t, s).Holding?
            && (forall x: Sender :: x != s ==> PcOf(t, x) == PcOf(b, x))
            && t.q.items == if PcOf(b, s).Holding? then b.q.items + [PcOf(b, s).cmd] else b.q.items
  {
  }

  lemma SendKeepsOrdered(b: Box, s: Sender, body: nat)
    requires Ordered(b)
    ensures Ordered(Step(b, Send(s, body)))
  {
    var t := Step(b, Send(s, body));
    forall x: Sender ensures Written1(t, x) && (PcOf(t, x).Holding? ==> PcOf(t, x).cmd.from == x) {
      assert Written1(b, x);
    }
  }

  lemma ReceiverKeepsOrdered(b: Box)
    requires Ordered(b)
    ensures Ordered(ReceiverStep(b))
  {
    var t := ReceiverStep(b);
    ReceiverFrame(b);
    forall x: Sender ensures Written1(t, x) && (PcOf(t, x).Holding? ==> PcOf(t, x).cmd.from == x) {
      assert Written1(b, x);
    }
  }

  // ---------------------------------------------------------------- every run

  lemma StepKeepsInv(b: Box, act: Action)
    requires Inv(b)
    ensures Inv(Step(b, act))
  {
    match act
    case Send(s, body) =>
      SendKeepsExclusive(b, s, body);
      SendKeepsSignalled(b, s, body);
      SendKeepsOrdered(b, s, body);
    case Continue(s) =>
      SenderKeepsExclusive(b, s);
      SenderKeepsSignalled(b, s);
      SenderKeepsOrdered(b, s);
    case Receive =>
      ReceiverKeepsExclusive(b);
      ReceiverKeepsSignalled(b);
      ReceiverKeepsOrdered(b);
    case Timeout =>
      TimeoutKeepsInv(b);
  }

  lemma TimeoutKeepsInv(b: Box)
    requires Inv(b)
    ensures Inv(Step(b, Timeout))
  {
    var t := Step(b, Timeout);
    assert Owing(t) == Owing(b);
    forall x: Sender ensures Written1(t, x) && PcOf(t, x) == PcOf(b, x) { assert Written1(b, x); }
  }

  lemma {:induction false} RunKeepsInv(acts: seq<Action>)
    ensures Inv(Run(acts))
  {
    if acts == [] {
      NewInv();
    } else {
      RunKeepsInv(acts[..|acts| - 1]);
      StepKeepsInv(Run(acts[..|acts| - 1]), acts[|acts| - 1]);
    }
  }

  /** After a signal there is always a command: the assertion at the end of `recv` never fails. */
  lemma SignalBringsCommand(acts: seq<Action>)
    ensures Run(acts).ok
    ensures Run(acts).rpc == Woken ==> Run(acts).q.CheckRead().Prefetched()
  {
    RunKeepsInv(acts);
  }

  /** A passive receiver sleeps on an empty queue, or one signal is pending or owed and the queue is not empty. */
  lemma NoLostWakeup(acts: seq<Action>)
    ensures var b := Run(acts);
            !b.active ==>
              || (b.q.c.None? && b.q.front == b.q.w && |Owing(b)| + b.signals == 0)
              || (b.q.c.Some? && b.q.front < b.q.w && |Owing(b)| + b.signals == 1)
  {
    RunKeepsInv(acts);
  }

  /** When no sender is in `send` and a command was not yet received, the receiver need not wait for anybody. */
  lemma CommandsAreReceived(acts: seq<Action>)
    requires var b := Run(acts); (forall s :: s in b.pc ==> b.pc[s] == Outside) && b.q.front < |b.q.items|
    ensures Run(acts).active || Run(acts).signals == 1
  {
    RunKeepsInv(acts);
    assert Owing(Run(acts)) == {};
  }

  /** Senders never work on the queue at the same time. */
  lemma OneWriter(acts: seq<Action>, s: Sender, t: Sender)
    requires InLock(PcOf(Run(acts), s)) && InLock(PcOf(Run(acts), t))
    ensures s == t
  {
    RunKeepsInv(acts);
  }

  lemma {:induction false} FromPrefix(cmds: seq<Command>, n: nat, s: Sender)
    requires n <= |cmds|
    ensures From(cmds[..n], s) <= From(cmds, s)
    decreases |cmds|
  {
    if n < |cmds| {
      var m := |cmds| - 1;
      FromPrefix(cmds[..m], n, s);
      assert cmds[..m][..n] == cmds[..n];
    } else {
      assert cmds[..n] == cmds;
    }
  }

  /**
   The receiver gets the commands of every sender in the order in which that sender issued them, none
   lost in between.
   */
  lemma CommandsInOrder(acts: seq<Action>, s: Sender)
    ensures var b := Run(acts); b.q.front <= |b.q.items| && From(b.q.items[..b.q.front], s) <= IssuedBy(b, s)
  {
    RunKeepsInv(acts);
    var b := Run(acts);
    assert Written1(b, s);
    FromPrefix(b.q.items, b.q.front, s);
  }
}
