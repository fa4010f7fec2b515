/** Commands arrive: every `send` ends after a few steps of its own, and `recv` gets what was sent. */
module MailboxProgress {
  import opened Bytes
  import opened Mailbox
  import Y = YPipe

  // ---------------------------------------------------------------- sending

  /** The steps that a sender has before it. */
  function StepsToGo(pc: SenderPc): nat {
    match pc
    case Outside => 0
    case Holding(_) => 5
    case Written => 4
    case Flushing => 3
    case Unlocking(ok) => if ok then 1 else 2
    case OwesSignal => 1
  }

  /** The steps of `s` in a run. */
  function StepsOf(s: Sender, acts: seq<Action>): nat {
    if acts == [] then 0 else StepsOf(s, acts[..|acts| - 1]) + if acts[|acts| - 1] == Continue(s) then 1 else 0
  }

  function RunFrom(b: Box, acts: seq<Action>): Box
    decreases |acts|
  {
    if acts == [] then b else Step(RunFrom(b, acts[..|acts| - 1]), acts[|acts| - 1])
  }

  lemma OnlyOwnSteps(b: Box, act: Action, s: Sender)
    requires act == Continue(s) || !(act.Send? && act.s == s)
    ensures act == Continue(s) ==>
            StepsToGo(PcOf(Step(b, act), s)) <= if PcOf(b, s) == Outside then 0 else StepsToGo(PcOf(b, s)) - 1
    ensures act != Continue(s) ==> PcOf(Step(b, act), s) == PcOf(b, s)
  {
  }

  /**
   A call of `send` is over after at most five steps of its own once it has the lock, whatever the other
   threads do.
   */
  lemma {:induction false} SendEnds(b: Box, acts: seq<Action>, s: Sender)
    requires forall act :: act in acts ==> !(act.Send? && act.s == s)
    ensures var left := StepsToGo(PcOf(RunFrom(b, acts), s));
            left == 0 || left + StepsOf(s, acts) <= StepsToGo(PcOf(b, s)) <= 5
    decreases |acts|
  {
    if acts != [] {
      SendEnds(b, acts[..|acts| - 1], s);
      OnlyOwnSteps(RunFrom(b, acts[..|acts| - 1]), acts[|acts| - 1], s);
    }
  }

  /** What is left of `send` when no other thread runs. */
  function Finish(b: Box, s: Sender, n: nat): Box
    decreases n
  {
    if n == 0 then b else Finish(Step(b, Continue(s)), s, n - 1)
  }

  /** No other thread has the lock. */
  predicate AtWork(b: Box, s: Sender) {
    b.lock == if InLock(PcOf(b, s)) then Some(s) else None
  }

  /** One step of a sender brings it nearer to the end. */
  lemma Nearer(b: Box, s: Sender)
    requires AtWork(b, s)
    ensures var t := Step(b, Continue(s));
            && AtWork(t, s) && !PcOf(t, s).Holding? && (forall x :: x != s ==> PcOf(t, x) == PcOf(b, x))
            && StepsToGo(PcOf(t, s)) <= if PcOf(b, s) == Outside then 0 else StepsToGo(PcOf(b, s)) - 1
  {
  }

  function InHand(b: Box, s: Sender): seq<Command> {
    if PcOf(b, s).Holding? then [PcOf(b, s).cmd] else []
  }

  lemma {:induction false} FinishEnds(b: Box, s: Sender, n: nat)
    requires Inv(b) && AtWork(b, s) && n >= StepsToGo(PcOf(b, s))
    ensures var t := Finish(b, s, n);
            && Inv(t) && t.lock == None && PcOf(t, s) == Outside && t.q.front == b.q.front
            && t.q.items == b.q.items + InHand(b, s) && (forall x :: x != s ==> PcOf(t, x) == PcOf(b, x))
    decreases n
  {
    if n > 0 {
      StepKeepsInv(b, Continue(s));
      Nearer(b, s);
      SenderFrame(b, s);
      SenderKeepsFront(b, s);
      FinishEnds(Step(b, Continue(s)), s, n - 1);
    }
  }

  lemma SenderKeepsFront(b: Box, s: Sender)
    ensures SenderStep(b, s).q.front == b.q.front
  {
  }

  /** A command that is sent is written behind all others and published, and the lock is free again. */
  lemma SendPublishes(b: Box, s: Sender, body: nat)
    requires Inv(b) && b.lock == None && PcOf(b, s) == Outside
    ensures var t := Finish(Step(b, Send(s, body)), s, 5);
            && Inv(t) && t.lock == None && PcOf(t, s) == Outside
            && t.q.items == b.q.items + [Command(s, body)] && t.q.w == |t.q.items| && t.q.front == b.q.front
            && (forall x :: x != s ==> PcOf(t, x) == PcOf(b, x))
  {
    StepKeepsInv(b, Send(s, body));
    FinishEnds(Step(b, Send(s, body)), s, 5);
  }

  // ---------------------------------------------------------------- receiving

  function Receives(b: Box, n: nat): Box
    decreases n
  {
    if n == 0 then b else Receives(Step(b, Receive), n - 1)
  }

  function Unread(b: Box): int {
    |b.q.items| - b.q.front
  }

  /** The steps of the receiver until it has everything, if nobody is in `send`. */
  function StepsToRead(b: Box): int {
    if Unread(b) == 0 then 0
    else
      3 * (Unread(b) - 1) +
      match b.rpc
      case Away => if b.active then 3 else 4
      case Waiting => 3
      case Reading => 2
      case Woken => 2
      case Taking => 1
  }

  predicate NobodySends(b: Box) {
    forall s :: s in b.pc ==> b.pc[s] == Outside
  }

  /** Every step of the receiver brings it one step nearer, until it has received all commands. */
  lemma ReceiveStep(b: Box)
    requires Inv(b) && NobodySends(b)
    ensures var t := Step(b, Receive);
            && Inv(t) && NobodySends(t) && t.issued == b.issued && t.q.items == b.q.items && 0 <= Unread(t)
            && StepsToRead(t) == if Unread(b) == 0 then 0 else StepsToRead(b) - 1
  {
    StepKeepsInv(b, Receive);
    NothingHeld(b);
    ReceiverFrame(b);
    assert b.q.front <= b.q.w == |b.q.items|;
  }

  /** With no sender at work every command is published, and no signal is still to come. */
  lemma NothingHeld(b: Box)
    requires Inv(b) && NobodySends(b)
    ensures b.lock == None && b.q.w == |b.q.items| && Owing(b) == {}
    ensures forall s :: IssuedBy(b, s) == From(b.q.items, s)
  {
    assert b.lock.Some? ==> InLock(PcOf(b, b.lock.value));
    forall s ensures IssuedBy(b, s) == From(b.q.items, s) { assert Written1(b, s); }
  }

  lemma {:induction false} ReceivesAll(b: Box, n: nat)
    requires Inv(b) && NobodySends(b) && n >= StepsToRead(b)
    ensures var t := Receives(b, n);
            Inv(t) && NobodySends(t) && Unread(t) == 0 && t.q.items == b.q.items && t.issued == b.issued
    decreases n
  {
    ReceiveStep(b);
    if n == 0 {
      NothingHeld(b);
    } else {
      ReceivesAll(Step(b, Receive), n - 1);
    }
  }

  /**
   Once the senders are done, the receiver needs at most three steps for each unread command, and one
   more to wake up, to receive every command that every sender issued.
   */
  lemma AllCommandsAreReceived(acts: seq<Action>, n: nat, s: Sender)
    requires NobodySends(Run(acts)) && n >= 3 * Unread(Run(acts)) + 1
    ensures var t := Receives(Run(acts), n);
            t.q.front == |t.q.items| && From(t.q.items[..t.q.front], s) == IssuedBy(t, s) == IssuedBy(Run(acts), s)
  {
    var b := Run(acts);
    RunKeepsInv(acts);
    NothingHeld(b);
    ReceivesAll(b, n);
    var t := Receives(b, n);
    NothingHeld(t);
    assert t.q.items[..t.q.front] == t.q.items;
  }

  /** A receiver that waits takes the signal and the command in three steps. */
  lemma SignalIsTaken(acts: seq<Action>)
    requires Run(acts).rpc == Waiting && Run(acts).signals > 0
    ensures var t := Receives(Run(acts), 3); t.q.front == Run(acts).q.front + 1 && t.rpc == Away && t.active
  {
    var b := Run(acts);
    RunKeepsInv(acts);
    StepKeepsInv(b, Receive);
    var b1 := Step(b, Receive);
    StepKeepsInv(b1, Receive);
    var b2 := Step(b1, Receive);
    assert Receives(b2, 1) == Step(b2, Receive) && Receives(b1, 2) == Receives(b2, 1);
  }

  /** A command that is sent to a receiver with nothing else to do is the next one it receives. */
  lemma SentIsReceived(acts: seq<Action>, s: Sender, body: nat, n: nat)
    requires NobodySends(Run(acts)) && n >= 3 * Unread(Run(acts)) + 4
    ensures var t := Receives(Finish(Step(Run(acts), Send(s, body)), s, 5), n);
            t.q.items == Run(acts).q.items + [Command(s, body)] && t.q.front == |t.q.items|
  {
    var b := Run(acts);
    RunKeepsInv(acts);
    NothingHeld(b);
    SendPublishes(b, s, body);
    var t := Finish(Step(b, Send(s, body)), s, 5);
    forall x | x in t.pc ensures t.pc[x] == Outside { assert PcOf(t, x) == Outside; }
    ReceivesAll(t, n);
  }

  /** A wait that times out ends the call and loses nothing. */
  lemma TimeoutLosesNothing(acts: seq<Action>)
    ensures var b := Run(acts);
            var t := Run(acts + [Timeout]);
            (b.rpc == Waiting ==> t.rpc == Away) && t.q == b.q && t.signals == b.signals && t.active == b.active
  {
    assert (acts + [Timeout])[..|acts|] == acts;
  }
}
