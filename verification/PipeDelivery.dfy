/**
 What the user of a pipe can count on: what was written is what is queued, what was flushed arrives,
 and a patient reader loses nothing when its peer terminates.
 */
module PipeDelivery {
  import opened Queues
  import opened PipeProtocol
  import opened PipeInvariant
  import opened PipeTheorems
  import opened PipeProgress

  // ---------------------------------------------------------------- what was written

  /** The frames of the message being written, and those of all complete messages, with delimiters. */
  datatype Account = Account(open: seq<Msg>, done: seq<Msg>)

  /** A frame is added to the open message, and completes it unless more frames follow. */
  function Added(w: Account, m: Msg, more: bool): Account {
    if more then Account(w.open + [m], w.done) else Account([], w.done + w.open + [m])
  }

  /** What an operation of end `a` in state `s` means for the messages it has written. */
  function Entered(w: Account, s: Sys, op: Op): Account {
    if !s.a.c.alive then w
    else if s.a.c.pc == OwesDelimiter then
      if op.OpResume? then Account([], w.done + [Delimiter]) else w
    else if s.a.c.pc == OwesWakeup then w
    else
      match op
      case OpWrite(more, routingId, credential, body) =>
        if CanWrite(LocalOf(s)) then Added(w, Frame(more, routingId, credential, body), more) else w
      case OpRollback => if s.a.c.outPipe then Account([], w.done) else w
      case OpTerminate(delay) =>
        if s.a.c.state == WaitingForDelimiter && !delay then Account([], w.done) else w
      case _ => w
  }

  /** The books of end `a` after a run: the frames it was allowed to write, without those rolled back. */
  function Books(hwmA: int, hwmB: int, acts: seq<Action>): Account {
    if acts == [] then Account([], [])
    else
      var prev, act := acts[..|acts| - 1], acts[|acts| - 1];
      if act.byA then Entered(Books(hwmA, hwmB, prev), Reached(hwmA, hwmB, prev), act.op) else Books(hwmA, hwmB, prev)
  }

  predicate Agrees(s: Sys, w: Account) {
    s.a.h.committed == w.done && s.ab.got + s.ab.published + s.ab.complete == w.done && s.ab.partial == w.open
  }

  /** A frame that may be written is in the queue, behind everything else. */
  lemma WriteQueues(v: Local, m: Msg)
    ensures var w := WriteFrame(v, m);
            if CanWrite(v) then w.outq.Log() + w.outq.partial == v.outq.Log() + v.outq.partial + [m]
            else w.outq == v.outq && w.h == v.h
  {
    if CanWrite(v) && !m.More() {
      var q := v.outq;
      assert q.Log() + (q.partial + [m]) == q.Log() + q.partial + [m];
      assert WriteFrame(v, m).outq.Log() == q.Log() + (q.partial + [m]);
    }
  }

  /** A call leaves the inbound queue as long as it was; reading only moves its frames. */
  predicate InboundKept(p: Queue<Msg>, q: Queue<Msg>) {
    q.got + q.published == p.got + p.published && q.complete == p.complete && q.partial == p.partial
  }

  lemma PopKeepsInbound(p: Queue<Msg>, q: Queue<Msg>)
    requires InboundKept(p, q) && q.published != []
    ensures InboundKept(p, Pop(q))
  {
    assert q.got + [q.published[0]] + q.published[1..] == q.got + q.published;
  }

  lemma ReadKeepsInbound(v: Local)
    ensures InboundKept(v.inq, Read(v).inq) && InboundKept(v.inq, CheckRead(v).inq)
    ensures Read(v).outq == CheckRead(v).outq == v.outq
            && Read(v).h.committed == CheckRead(v).h.committed == v.h.committed
  {
    var q := SkipCredentials(v.inq);
    if q.published != [] {
      PopKeepsInbound(v.inq, q);
      TakenInbound(v, q);
    }
    if v.inq.published != [] {
      PopKeepsInbound(v.inq, v.inq);
      TakenInbound(v, v.inq);
    }
  }

  lemma TakenInbound(v: Local, q: Queue<Msg>)
    requires q.published != []
    ensures TakeFrame(v, q).inq == Pop(q) && TakeDelimiter(v, q).inq == Pop(q)
    ensures TakeFrame(v, q).outq == TakeDelimiter(v, q).outq == v.outq
    ensures TakeFrame(v, q).h.committed == TakeDelimiter(v, q).h.committed == v.h.committed
  {
  }

  predicate AgreesHere(v: Local, w: Account) {
    v.h.committed == w.done && v.outq.got + v.outq.published + v.outq.complete == w.done && v.outq.partial == w.open
  }

  lemma WriteEnters(v: Local, w: Account, m: Msg)
    requires AgreesHere(v, w)
    ensures AgreesHere(WriteFrame(v, m), if CanWrite(v) then Added(w, m, m.More()) else w)
  {
    if CanWrite(v) && !m.More() {
      assert v.outq.got + v.outq.published + (v.outq.complete + v.outq.partial + [m]) == w.done + w.open + [m];
    }
  }

  lemma FlushEnters(v: Local, w: Account)
    requires AgreesHere(v, w)
    ensures AgreesHere(FlushQueue(v), w)
  {
    var q := v.outq;
    assert q.got + (q.published + q.complete) + [] == q.got + q.published + q.complete;
  }

  lemma DelimiterEnters(v: Local, w: Account)
    requires AgreesHere(v, w) && v.c.outPipe && v.c.state != TermAckSent
    ensures AgreesHere(WriteDelimiter(v), Account([], w.done + [Delimiter]))
  {
    var q := Write(UnwriteAll(v.outq), Delimiter, false);
    assert q.complete == v.outq.complete + [Delimiter];
    assert v.outq.got + v.outq.published + q.complete == w.done + [Delimiter];
    var u := Rollback(v).(outq := q, c := v.c.(pc := Idle), h := v.h.(committed := v.h.committed + [Delimiter]));
    FlushEnters(u, Account([], w.done + [Delimiter]));
    assert WriteDelimiter(v).outq == FlushQueue(u).outq && WriteDelimiter(v).h == u.h;
  }

  /** Commands and `terminate` write nothing; `terminate` without delay drops what is unfinished. */
  lemma CommandEnters(v: Local, w: Account, c: Command)
    requires AgreesHere(v, w)
    ensures AgreesHere(ProcessCommand(v, c), w) && ProcessCommand(v, c).inq == v.inq
  {
  }

  lemma TerminateEnters(v: Local, w: Account, delay: bool)
    requires AgreesHere(v, w) && StateMatchesCounts(v.c) && v.c.alive && (v.c.ackSent == 0 ==> v.c.outPipe)
    ensures AgreesHere(Terminate(v, delay),
                       if v.c.state == WaitingForDelimiter && !delay then Account([], w.done) else w)
    ensures Terminate(v, delay).inq == v.inq
  {
  }

  lemma CallEnters(v: Local, w: Account, op: Op)
    requires AgreesHere(v, w) && StateMatchesCounts(v.c) && v.c.alive && v.c.pc == Idle
             && (v.c.ackSent == 0 ==> v.c.outPipe)
    ensures AgreesHere(Call(v, op),
              match op
              case OpWrite(more, routingId, credential, body) =>
                if CanWrite(v) then Added(w, Frame(more, routingId, credential, body), more) else w
              case OpRollback => if v.c.outPipe then Account([], w.done) else w
              case OpTerminate(delay) => if v.c.state == WaitingForDelimiter && !delay then Account([], w.done) else w
              case _ => w)
  {
    match op
    case OpRead => ReadKeepsInbound(v);
    case OpCheckRead => ReadKeepsInbound(v);
    case OpWrite(more, routingId, credential, body) => WriteEnters(v, w, Frame(more, routingId, credential, body));
    case OpTerminate(delay) => TerminateEnters(v, w, delay);
    case OpFlush => FlushEnters(v, w);
    case _ =>
  }

  lemma ResumeEnters(v: Local, w: Account)
    requires AgreesHere(v, w) && (v.c.pc == OwesDelimiter ==> v.c.outPipe && v.c.state != TermAckSent)
    ensures AgreesHere(Resume(v), if v.c.pc == OwesDelimiter then Account([], w.done + [Delimiter]) else w)
  {
    if v.c.pc == OwesDelimiter { DelimiterEnters(v, w); }
  }

  /** The books of an end are those of its local view. */
  lemma BooksAreLocal(s: Sys, v: Local, w: Account)
    ensures Agrees(s, w) <==> AgreesHere(LocalOf(s), w)
    ensures Agrees(Put(s, v), w) <==> AgreesHere(v, w)
  {
  }

  lemma StepEnters(s: Sys, w: Account, op: Op)
    requires Inv(s) && Agrees(s, w)
    ensures Agrees(StepA(s, op), Entered(w, s, op))
  {
    var v := LocalOf(s);
    BooksAreLocal(s, v, w);
    if s.a.c.alive {
      if op == OpResume {
        ResumeEnters(v, w);
        BooksAreLocal(s, Resume(v), Entered(w, s, op));
      } else if v.c.pc == Idle && op == OpReceive {
        if s.toA != [] {
          CommandEnters(v, w, s.toA[0]);
          BooksAreLocal(s.(toA := s.toA[1..]), ProcessCommand(v, s.toA[0]), w);
        }
      } else if v.c.pc == Idle {
        CallEnters(v, w, op);
        BooksAreLocal(s, Call(v, op), Entered(w, s, op));
      }
    }
  }

  /** The peer moves frames of the queue, and writes none. */
  lemma PeerEntersNothing(s: Sys, op: Op)
    ensures var t := StepA(s, op); InboundKept(s.ba, t.ba) && t.b == s.b
  {
    var v := LocalOf(s);
    CallInbound(v, op);
    ResumeInbound(v);
    if s.toA != [] { CommandInbound(v, s.toA[0]); }
  }

  lemma ResumeInbound(v: Local)
    ensures Resume(v).inq == v.inq
  {
  }

  lemma CommandInbound(v: Local, c: Command)
    ensures ProcessCommand(v, c).inq == v.inq
  {
  }

  lemma CallInbound(v: Local, op: Op)
    ensures InboundKept(v.inq, Call(v, op).inq)
  {
    match op
    case OpRead => ReadKeepsInbound(v);
    case OpCheckRead => ReadKeepsInbound(v);
    case OpTerminate(delay) => TerminateFrame(v, delay);
    case _ =>
  }

  /**
   What an end has committed, and what its queue has held, is exactly the frames it was allowed to
   write, in order, but for messages that were rolled back; an unfinished message is at the end.
   */
  lemma {:induction false} QueueHoldsWhatWasWritten(hwmA: int, hwmB: int, acts: seq<Action>)
    ensures Agrees(Reached(hwmA, hwmB, acts), Books(hwmA, hwmB, acts))
    decreases |acts|
  {
    if acts != [] {
      var prev, act := acts[..|acts| - 1], acts[|acts| - 1];
      var s := Reached(hwmA, hwmB, prev);
      QueueHoldsWhatWasWritten(hwmA, hwmB, prev);
      ReachedInv(hwmA, hwmB, prev);
      if act.byA {
        StepEnters(s, Books(hwmA, hwmB, prev), act.op);
      } else {
        PeerEntersNothing(Swap(s), act.op);
      }
    }
  }

  // ---------------------------------------------------------------- a patient reader

  /** Operations that cut nothing off: all but `set_nodelay`, and `terminate` only after the peer asked, with delay. */
  predicate Patient(s: Sys, op: Op) {
    !op.OpSetNodelay? && (op.OpTerminate? ==> op.delay && s.a.c.state == WaitingForDelimiter)
  }

  /** End `a` did nothing else in a run. */
  predicate PatientRun(hwmA: int, hwmB: int, acts: seq<Action>) {
    acts != [] ==>
      var prev, act := acts[..|acts| - 1], acts[|acts| - 1];
      PatientRun(hwmA, hwmB, prev) && (act.byA ==> Patient(Reached(hwmA, hwmB, prev), act.op))
  }

  /** The reader goes on until it has the delimiter; only then it gives up its side. */
  predicate ReadsOn(c: Control, h: History) {
    c.delay && c.termSent == 0 && (c.ackSent > 0 || c.state == DelimiterReceived ==> h.sawDelimiter)
  }

  lemma ReadKeepsReadingOn(v: Local)
    requires ReadsOn(v.c, v.h)
    ensures ReadsOn(Read(v).c, Read(v).h) && ReadsOn(CheckRead(v).c, CheckRead(v).h)
  {
  }

  lemma CallKeepsReadingOn(v: Local, op: Op)
    requires ReadsOn(v.c, v.h) && !op.OpSetNodelay?
             && (op.OpTerminate? ==> op.delay && v.c.state == WaitingForDelimiter)
    ensures ReadsOn(Call(v, op).c, Call(v, op).h)
  {
    match op
    case OpRead => ReadKeepsReadingOn(v);
    case OpCheckRead => ReadKeepsReadingOn(v);
    case _ =>
  }

  lemma CommandKeepsReadingOn(v: Local, c: Command)
    requires ReadsOn(v.c, v.h) && v.c.state != TermReqSent1
    ensures ReadsOn(ProcessCommand(v, c).c, ProcessCommand(v, c).h)
  {
  }

  lemma ResumeKeepsReadingOn(v: Local)
    requires ReadsOn(v.c, v.h)
    ensures ReadsOn(Resume(v).c, Resume(v).h)
  {
  }

  lemma StepKeepsReadingOn(s: Sys, op: Op)
    requires Inv(s) && ReadsOn(s.a.c, s.a.h) && Patient(s, op)
    ensures ReadsOn(StepA(s, op).a.c, StepA(s, op).a.h)
  {
    var v := LocalOf(s);
    if s.a.c.alive {
      assert v.c.state != TermReqSent1;
      if op == OpResume {
        ResumeKeepsReadingOn(v);
      } else if op == OpReceive {
        if s.toA != [] { CommandKeepsReadingOn(v, s.toA[0]); }
      } else {
        CallKeepsReadingOn(v, op);
      }
    }
  }

  lemma {:induction false} PatientReaderReadsOn(hwmA: int, hwmB: int, acts: seq<Action>)
    requires PatientRun(hwmA, hwmB, acts)
    ensures ReadsOn(Reached(hwmA, hwmB, acts).a.c, Reached(hwmA, hwmB, acts).a.h)
    decreases |acts|
  {
    if acts != [] {
      var prev, act := acts[..|acts| - 1], acts[|acts| - 1];
      var s := Reached(hwmA, hwmB, prev);
      PatientReaderReadsOn(hwmA, hwmB, prev);
      ReachedInv(hwmA, hwmB, prev);
      if act.byA { StepKeepsReadingOn(s, act.op); } else { PeerKeepsReader(Swap(s), act.op); }
    }
  }

  /** A reader that cuts nothing off acknowledges only when it has read all that its peer completed. */
  lemma AckComesLast(hwmA: int, hwmB: int, acts: seq<Action>)
    requires PatientRun(hwmA, hwmB, acts)
    ensures var s := Reached(hwmA, hwmB, acts);
            && s.a.c.termSent == 0
            && (s.a.c.ackSent > 0 ==> s.a.h.delivered == Payload(s.b.h.committed))
  {
    PatientReaderReadsOn(hwmA, hwmB, acts);
    DeliveryInOrder(hwmA, hwmB, acts);
  }

  // ---------------------------------------------------------------- rounds as one run

  lemma {:induction false} RunConcat(s: Sys, acts: seq<Action>, more: seq<Action>)
    ensures Run(s, acts + more) == Run(Run(s, acts), more)
    decreases |more|
  {
    if more == [] {
      assert acts + more == acts;
    } else {
      var front := more[..|more| - 1];
      RunConcat(s, acts, front);
      assert (acts + more)[..|acts + more| - 1] == acts + front;
    }
  }

  /** Both ends only work off what is there. */
  predicate AllDiligent(acts: seq<Action>) {
    forall act :: act in acts ==> Diligent(act.op)
  }

  lemma {:induction false} RoundsAreRun(s: Sys, rounds: seq<seq<Action>>) returns (acts: seq<Action>)
    requires forall r :: r in rounds ==> Round(r)
    ensures AllDiligent(acts) && RunRounds(s, rounds) == Run(s, acts)
    decreases |rounds|
  {
    if rounds == [] {
      acts := [];
    } else {
      var last := rounds[|rounds| - 1];
      var front := RoundsAreRun(s, rounds[..|rounds| - 1]);
      assert Round(last);
      RunConcat(s, front, last);
      acts := front + last;
    }
  }

  lemma DiligentCallWritesNothing(v: Local, op: Op)
    requires Diligent(op)
    ensures Payload(Call(v, op).h.committed) == Payload(v.h.committed)
  {
    ReadKeepsInbound(v);
  }

  lemma ResumeWritesNoPayload(v: Local)
    ensures Payload(Resume(v).h.committed) == Payload(v.h.committed)
  {
    if v.c.pc == OwesDelimiter { PayloadAppend(v.h.committed, Delimiter); }
  }

  lemma CommandWritesNothing(v: Local, c: Command)
    ensures ProcessCommand(v, c).h == v.h
  {
  }

  lemma DiligentStepWritesNothing(s: Sys, op: Op)
    requires Diligent(op)
    ensures Payload(StepA(s, op).a.h.committed) == Payload(s.a.h.committed) && StepA(s, op).b == s.b
  {
    var v := LocalOf(s);
    DiligentCallWritesNothing(v, op);
    ResumeWritesNoPayload(v);
    if s.toA != [] { CommandWritesNothing(v, s.toA[0]); }
  }

  lemma {:induction false} DiligentRunWritesNothing(s: Sys, acts: seq<Action>)
    requires AllDiligent(acts)
    ensures Payload(Run(s, acts).a.h.committed) == Payload(s.a.h.committed)
    ensures Payload(Run(s, acts).b.h.committed) == Payload(s.b.h.committed)
    decreases |acts|
  {
    if acts != [] {
      var prev, act := acts[..|acts| - 1], acts[|acts| - 1];
      DiligentRunWritesNothing(s, prev);
      var t := Run(s, prev);
      DiligentStepWritesNothing(if act.byA then t else Swap(t), act.op);
    }
  }

  // ---------------------------------------------------------------- termination loses nothing

  lemma {:induction false} DiligentRunReadsOn(s: Sys, acts: seq<Action>)
    requires Inv(s) && ReadsOn(s.a.c, s.a.h) && AllDiligent(acts)
    ensures ReadsOn(Run(s, acts).a.c, Run(s, acts).a.h)
    decreases |acts|
  {
    if acts != [] {
      var prev, act := acts[..|acts| - 1], acts[|acts| - 1];
      DiligentRunReadsOn(s, prev);
      WorkIsBounded(s, prev);
      DiligentStepReadsOn(Run(s, prev), act);
    }
  }

  lemma DiligentStepReadsOn(s: Sys, act: Action)
    requires Inv(s) && ReadsOn(s.a.c, s.a.h) && Diligent(act.op)
    ensures ReadsOn(Step(s, act).a.c, Step(s, act).a.h)
  {
    if act.byA { StepKeepsReadingOn(s, act.op); } else { PeerKeepsReader(Swap(s), act.op); }
  }

  lemma GoneReaderHasAll(s: Sys)
    requires Inv(s) && ReadsOn(s.a.c, s.a.h) && !s.a.c.alive
    ensures s.a.h.delivered == Payload(s.b.h.committed)
  {
    InOrder(s.b.h.committed, s.a.h.delivered, s.ba);
  }

  /**
   When one end asks for termination and the other cuts nothing off, the other has read every message
   that was complete at that time when both are gone, which is after more rounds than there was work.
   */
  lemma NothingIsLost(hwmA: int, hwmB: int, acts: seq<Action>, rounds: seq<seq<Action>>)
    requires PatientRun(hwmA, hwmB, acts) && Started(Reached(hwmA, hwmB, acts))
    requires (forall r :: r in rounds ==> Round(r)) && |rounds| > Work(Reached(hwmA, hwmB, acts))
    ensures var s := Reached(hwmA, hwmB, acts);
            var t := RunRounds(s, rounds);
            BothGone(t) && t.a.h.delivered == Payload(s.b.h.committed)
  {
    var s := Reached(hwmA, hwmB, acts);
    ReachedInv(hwmA, hwmB, acts);
    PatientReaderReadsOn(hwmA, hwmB, acts);
    TerminationCompletes(hwmA, hwmB, acts, rounds);
    var all := RoundsAreRun(s, rounds);
    DiligentRunReadsOn(s, all);
    WorkIsBounded(s, all);
    DiligentRunWritesNothing(s, all);
    GoneReaderHasAll(Run(s, all));
  }

  // ---------------------------------------------------------------- what is flushed arrives

  lemma FlushPublishes(v: Local)
    requires v.c.outPipe && v.c.state != TermAckSent
    ensures var w := FlushQueue(v);
            && w.outq.complete == [] && w.outq.got + w.outq.published == v.outq.got + v.outq.published + v.outq.complete
            && (v.outq.asleep && v.outq.complete != [] ==> w.c.pc == OwesWakeup)
  {
    var q := v.outq;
    assert q.got + (q.published + q.complete) == q.got + q.published + q.complete;
  }

  /** Nobody has asked for termination, and nothing that is complete waits for a flush. */
  predicate Flowing(s: Sys) {
    Inv(s) && !Started(s) && s.a.c.alive && s.b.c.alive && s.ab.complete == []
  }

  /** Before termination an end is told of progress and wake-ups only. */
  lemma OrdinaryCommands(s: Sys)
    requires Inv(s) && !Started(s) && s.a.c.alive && s.b.c.alive && s.toA != []
    ensures s.toA[0] != PipeTerm && s.toA[0] != PipeTermAck
    ensures s.b.c.pc != OwesDelimiter && s.b.c.outPipe && s.b.c.state != TermAckSent
  {
    assert s.toA[0] in multiset(s.toA);
  }

  lemma OrdinaryPc(s: Sys)
    requires Inv(s) && !Started(s) && s.a.c.alive && s.b.c.alive
    ensures s.a.c.pc != OwesDelimiter && s.a.c.outPipe && s.a.c.state != TermAckSent
  {
  }

  lemma StepStaysAlive(s: Sys, op: Op)
    requires Inv(s) && !Started(s) && s.a.c.alive && s.b.c.alive
    ensures StepA(s, op).a.c.alive && StepA(s, op).b == s.b
  {
    var v := LocalOf(s);
    if s.toA != [] {
      OrdinaryCommands(s);
      OrdinaryCommandKeepsAlive(v, s.toA[0]);
    }
    CallKeepsAlive(v, op);
    ResumeKeepsAlive(v);
  }

  lemma OrdinaryCommandKeepsAlive(v: Local, c: Command)
    requires c != PipeTermAck
    ensures ProcessCommand(v, c).c.alive == v.c.alive
  {
  }

  lemma CallKeepsAlive(v: Local, op: Op)
    ensures Call(v, op).c.alive == v.c.alive
  {
    match op
    case OpRead => ReadKeepsAlive(v);
    case OpCheckRead => ReadKeepsAlive(v);
    case OpWrite(more, routingId, credential, body) =>
      assert WriteFrame(v, Frame(more, routingId, credential, body)).c == v.c;
    case OpTerminate(delay) => assert Terminate(v, delay).c.alive == v.c.alive;
    case OpRollback => assert Rollback(v).c == v.c;
    case OpFlush => assert FlushQueue(v).c.alive == v.c.alive;
    case _ =>
  }

  lemma ResumeKeepsAlive(v: Local)
    ensures Resume(v).c.alive == v.c.alive
  {
  }

  lemma ReadKeepsAlive(v: Local)
    ensures Read(v).c.alive == CheckRead(v).c.alive == v.c.alive
  {
  }

  /** Without termination both ends stay. */
  lemma {:induction false} AliveUntilTermination(hwmA: int, hwmB: int, acts: seq<Action>)
    requires !Started(Reached(hwmA, hwmB, acts))
    ensures Reached(hwmA, hwmB, acts).a.c.alive && Reached(hwmA, hwmB, acts).b.c.alive
    decreases |acts|
  {
    if acts != [] {
      var prev, act := acts[..|acts| - 1], acts[|acts| - 1];
      var s := Reached(hwmA, hwmB, prev);
      if Started(s) { StepKeepsRequest(s, act); }
      AliveUntilTermination(hwmA, hwmB, prev);
      ReachedInv(hwmA, hwmB, prev);
      SwapKeepsInv(s);
      StepStaysAlive(if act.byA then s else Swap(s), act.op);
    }
  }

  predicate HasAll(s: Sys) {
    s.b.h.delivered == Payload(s.a.h.committed)
  }

  lemma SleeperHasAll(s: Sys)
    requires Flowing(s) && Quiet(s) && !s.b.f.inActive
    ensures HasAll(s)
  {
    QuietStates(s);
    assert s.ab.asleep && s.ab.published == [];
    assert s.ab.Log() == s.ab.got;
  }

  lemma AwakeReaderReads(s: Sys)
    requires Flowing(s) && Stuck(s)
    ensures HasAll(s)
  {
    SwapKeepsInv(s);
    assert Step(s, Action(true, OpReceive)) == s && Step(s, Action(true, OpResume)) == s
           && Step(s, Action(true, OpRead)) == s;
    StuckEnd(s);
    assert Step(s, Action(false, OpReceive)) == s && Step(s, Action(false, OpResume)) == s
           && Step(s, Action(false, OpRead)) == s;
    StuckEnd(Swap(s));
    QuietStates(s);
    ReadWorks(Swap(s));
    SleeperHasAll(s);
  }

  lemma DiligentCallFlows(v: Local, op: Op)
    requires Diligent(op)
    ensures Call(v, op).c.termSent == v.c.termSent && (v.outq.complete == [] ==> Call(v, op).outq.complete == [])
  {
    match op
    case OpRead => ReadKeepsInbound(v); ReadKeepsRequest(v);
    case OpCheckRead => ReadKeepsInbound(v); ReadKeepsRequest(v);
    case _ =>
  }

  lemma ResumeFlows(v: Local)
    ensures Resume(v).c.termSent == v.c.termSent
    ensures v.c.pc != OwesDelimiter ==> Resume(v).outq == v.outq
  {
  }

  lemma OrdinaryCommandKeepsQueue(v: Local, c: Command)
    ensures ProcessCommand(v, c).outq == v.outq
  {
  }

  /** Diligent steps request nothing and complete nothing. */
  lemma DiligentStepKeepsFlow(s: Sys, op: Op)
    requires Diligent(op)
    ensures StepA(s, op).a.c.termSent == s.a.c.termSent
    ensures s.a.c.pc != OwesDelimiter && s.ab.complete == [] ==> StepA(s, op).ab.complete == []
  {
    var v := LocalOf(s);
    DiligentCallFlows(v, op);
    ResumeFlows(v);
    if s.toA != [] {
      CommandKeepsRequest(v, s.toA[0]);
      OrdinaryCommandKeepsQueue(v, s.toA[0]);
    }
  }

  lemma DiligentStepFlows(s: Sys, act: Action)
    requires Flowing(s) && Diligent(act.op)
    ensures Flowing(Step(s, act))
  {
    StepKeepsInv(s, act);
    if act.byA {
      OrdinaryPc(s);
      DiligentStepKeepsFlow(s, act.op);
      StepStaysAlive(s, act.op);
    } else {
      SwapKeepsInv(s);
      PeerEntersNothing(Swap(s), act.op);
      DiligentStepKeepsFlow(Swap(s), act.op);
      StepStaysAlive(Swap(s), act.op);
    }
  }

  lemma {:induction false} DiligentRunFlows(s: Sys, acts: seq<Action>)
    requires Flowing(s) && AllDiligent(acts)
    ensures Flowing(Run(s, acts))
    decreases |acts|
  {
    if acts != [] {
      DiligentRunFlows(s, acts[..|acts| - 1]);
      DiligentStepFlows(Run(s, acts[..|acts| - 1]), acts[|acts| - 1]);
    }
  }

  lemma StepDeliversMore(s: Sys, op: Op)
    ensures s.a.h.delivered <= StepA(s, op).a.h.delivered
  {
    var v := LocalOf(s);
    CallDeliversMore(v, op);
    ResumeDeliversNothing(v);
    if s.toA != [] { CommandWritesNothing(v, s.toA[0]); }
  }

  lemma ResumeDeliversNothing(v: Local)
    ensures Resume(v).h.delivered == v.h.delivered
  {
  }

  lemma CallDeliversMore(v: Local, op: Op)
    ensures v.h.delivered <= Call(v, op).h.delivered
  {
    match op
    case OpTerminate(delay) => TerminateFrame(v, delay);
    case _ =>
  }

  lemma {:induction false} RunDeliversMore(s: Sys, acts: seq<Action>)
    ensures s.b.h.delivered <= Run(s, acts).b.h.delivered
    decreases |acts|
  {
    if acts != [] {
      var prev, act := acts[..|acts| - 1], acts[|acts| - 1];
      RunDeliversMore(s, prev);
      var t := Run(s, prev);
      if act.byA { PeerKeepsReader(t, act.op); } else { StepDeliversMore(Swap(t), act.op); }
    }
  }

  /** What has all keeps all while nothing is written. */
  lemma StillHasAll(s: Sys, t: Sys)
    requires Inv(t) && HasAll(s) && s.b.h.delivered <= t.b.h.delivered
    requires Payload(t.a.h.committed) == Payload(s.a.h.committed)
    ensures HasAll(t)
  {
    InOrder(t.a.h.committed, t.b.h.delivered, t.ab);
  }

  lemma RoundDelivers(s: Sys, round: seq<Action>)
    requires Flowing(s) && Round(round)
    ensures var t := Run(s, round); Flowing(t) && (HasAll(s) ==> HasAll(t)) && (HasAll(s) || Work(t) < Work(s))
  {
    var t := Run(s, round);
    RoundWorks(s, round);
    DiligentRunFlows(s, round);
    DiligentRunWritesNothing(s, round);
    RunDeliversMore(s, round);
    if HasAll(s) {
      StillHasAll(s, t);
    } else if !(Work(t) < Work(s)) {
      RoundIsStuck(s, round);
      AwakeReaderReads(s);
    }
  }

  lemma RoundIsStuck(s: Sys, round: seq<Action>)
    requires Round(round) && NothingDone(s, round)
    ensures Stuck(s)
  {
  }

  lemma {:induction false} RoundsDeliver(s: Sys, rounds: seq<seq<Action>>)
    requires Flowing(s) && forall r :: r in rounds ==> Round(r)
    ensures var t := RunRounds(s, rounds); Flowing(t) && (HasAll(t) || Work(t) + |rounds| <= Work(s))
    decreases |rounds|
  {
    if rounds != [] {
      RoundsDeliver(s, rounds[..|rounds| - 1]);
      RoundDelivers(RunRounds(s, rounds[..|rounds| - 1]), rounds[|rounds| - 1]);
    }
  }

  lemma FlushFlows(s: Sys)
    requires Inv(s) && !Started(s) && s.a.c.alive && s.b.c.alive && s.a.c.pc == Idle
    ensures Flowing(StepA(s, OpFlush))
  {
    StepAKeepsInv(s, OpFlush);
    OrdinaryPc(s);
    FlushPublishes(LocalOf(s));
    StepStaysAlive(s, OpFlush);
  }

  /** Messages that were completed and flushed are read, all of them, after more rounds than there was work. */
  lemma FlushedIsDelivered(hwmA: int, hwmB: int, acts: seq<Action>, rounds: seq<seq<Action>>)
    requires var s := Reached(hwmA, hwmB, acts); s.a.c.pc == Idle && !Started(s)
    requires forall r :: r in rounds ==> Round(r)
    requires |rounds| > Work(StepA(Reached(hwmA, hwmB, acts), OpFlush))
    ensures var s := Reached(hwmA, hwmB, acts);
            RunRounds(StepA(s, OpFlush), rounds).b.h.delivered == Payload(s.a.h.committed)
  {
    var s := Reached(hwmA, hwmB, acts);
    ReachedInv(hwmA, hwmB, acts);
    AliveUntilTermination(hwmA, hwmB, acts);
    FlushFlows(s);
    RoundsDeliver(StepA(s, OpFlush), rounds);
    var all := RoundsAreRun(StepA(s, OpFlush), rounds);
    DiligentRunWritesNothing(StepA(s, OpFlush), all);
    DiligentStepWritesNothing(s, OpFlush);
  }

  // ---------------------------------------------------------------- counting frames, independently

  /** The frames that a user gets to see: neither credentials nor delimiters. */
  function Visible(s: seq<Msg>): seq<Msg> {
    if s == [] then [] else (if s[0].Frame? && !s[0].credential then [s[0]] else []) + Visible(s[1..])
  }

  lemma {:induction false} VisibleAppend(s: seq<Msg>, m: Msg)
    ensures Visible(s + [m]) == Visible(s) + if m.Frame? && !m.credential then [m] else []
  {
    if s == [] {
      assert Visible([m]) == (if m.Frame? && !m.credential then [m] else []) + Visible([m][1..]);
    } else {
      VisibleAppend(s[1..], m);
      var head := if s[0].Frame? && !s[0].credential then [s[0]] else [];
      assert (s + [m])[1..] == s[1..] + [m] && (s + [m])[0] == s[0];
      assert Visible(s + [m]) == head + Visible(s[1..] + [m]);
    }
  }

  lemma {:induction false} PayloadIsVisible(s: seq<Msg>)
    ensures Payload(s) == Visible(s)
  {
    if s != [] {
      PayloadIsVisible(s[..|s| - 1]);
      VisibleAppend(s[..|s| - 1], s[|s| - 1]);
      assert s == s[..|s| - 1] + [s[|s| - 1]];
    }
  }

  /** The places of the last frames of messages that are not routing ids. */
  function LastFrames(s: seq<Msg>): set<nat> {
    set i: nat | i < |s| && s[i].Frame? && !s[i].more && !s[i].routingId
  }

  lemma {:induction false} CountedAreLastFrames(s: seq<Msg>)
    ensures Counted(s) == |LastFrames(s)|
  {
    if s != [] {
      var front, k := s[..|s| - 1], |s| - 1;
      CountedAreLastFrames(front);
      assert LastFrames(s) == LastFrames(front) + if s[k].Counted() then {k} else {};
    }
  }

  /** The counters of an end tell how many messages it has written and read, routing ids left out. */
  lemma CountersCount(hwmA: int, hwmB: int, acts: seq<Action>)
    ensures var s := Reached(hwmA, hwmB, acts);
            && s.a.f.msgsWritten == |LastFrames(s.a.h.committed)| && s.a.f.msgsRead == |LastFrames(s.a.h.delivered)|
            && s.b.f.msgsWritten == |LastFrames(s.b.h.committed)| && s.b.f.msgsRead == |LastFrames(s.b.h.delivered)|
  {
    var s := Reached(hwmA, hwmB, acts);
    ReachedInv(hwmA, hwmB, acts);
    CountedAreLastFrames(s.a.h.committed);
    CountedAreLastFrames(s.b.h.committed);
    CountedAreLastFrames(s.a.h.delivered);
    CountedAreLastFrames(s.b.h.delivered);
  }

  /** What is read is what is visible of what the peer completed. */
  lemma ReadersSeeWhatIsVisible(hwmA: int, hwmB: int, acts: seq<Action>)
    ensures var s := Reached(hwmA, hwmB, acts);
            s.b.h.delivered <= Visible(s.a.h.committed) && s.a.h.delivered <= Visible(s.b.h.committed)
  {
    DeliveryInOrder(hwmA, hwmB, acts);
    PayloadIsVisible(Reached(hwmA, hwmB, acts).a.h.committed);
    PayloadIsVisible(Reached(hwmA, hwmB, acts).b.h.committed);
  }

  /**
   A message may be written exactly while nobody terminates and fewer than `hwm` messages are not known
   to be read.
   */
  lemma CanWriteExactly(hwmA: int, hwmB: int, acts: seq<Action>)
    requires Reached(hwmA, hwmB, acts).a.c.alive
    ensures var s := Reached(hwmA, hwmB, acts);
            CanWrite(LocalOf(s)) <==>
            s.a.c.state == Active && (hwmA > 0 ==> |LastFrames(s.a.h.committed)| - s.a.f.peersMsgsRead < hwmA)
  {
    ReachedInv(hwmA, hwmB, acts);
    HwmIsConstant(hwmA, hwmB, acts);
    CountersCount(hwmA, hwmB, acts);
  }

  /** With no report in flight the writer knows the progress of the reader up to half the watermark, rounded up. */
  lemma ReportsAreTimely(hwmA: int, hwmB: int, acts: seq<Action>)
    requires hwmA > 0 && forall c :: c in Reached(hwmA, hwmB, acts).toA ==> !c.ActivateWrite?
    ensures var s := Reached(hwmA, hwmB, acts);
            var read, known := |LastFrames(s.b.h.delivered)|, s.a.f.peersMsgsRead;
            known <= read < known + (hwmA + 1) / 2 && known % ((hwmA + 1) / 2) == 0
  {
    var s := Reached(hwmA, hwmB, acts);
    CountersCount(hwmA, hwmB, acts);
    LastReportIs(hwmA, hwmB, acts);
    RoundedDown(s.b.f.msgsRead, (hwmA + 1) / 2);
  }

  lemma LastReportIs(hwmA: int, hwmB: int, acts: seq<Action>)
    requires hwmA > 0 && forall c :: c in Reached(hwmA, hwmB, acts).toA ==> !c.ActivateWrite?
    ensures var s := Reached(hwmA, hwmB, acts);
            s.a.f.peersMsgsRead == s.b.f.msgsRead - s.b.f.msgsRead % ((hwmA + 1) / 2)
  {
    var s := Reached(hwmA, hwmB, acts);
    ReachedInv(hwmA, hwmB, acts);
    HwmIsConstant(hwmA, hwmB, acts);
    NoReportInFlight(s.a.f.peersMsgsRead, s.toA);
    assert s.b.f.lwm == (hwmA + 1) / 2;
  }

  lemma RoundedDown(n: nat, d: nat)
    requires d > 0
    ensures var k := n - n % d; k <= n < k + d && k % d == 0
  {
    var k := n / d;
    assert n - n % d == d * k;
    RemainderIs(d * k, d, k, 0);
  }

  /** Looking is enough to notice that there is nothing to read, or that the peer has finished. */
  lemma CheckReadSettles(v: Local)
    ensures var w := Call(v, OpCheckRead);
            && w == CheckRead(v) && w.h.delivered == v.h.delivered
            && (w.f.inActive && w.c.Readable() ==>
                  w == v && w.inq.published != [] && w.inq.published[0].Frame?)
            && (v.f.inActive && v.c.Readable() && v.inq.published == [] ==> !w.f.inActive && w.inq.asleep)
            && (v.f.inActive && v.c.Readable() && v.inq.published != [] && v.inq.published[0].Delimiter? ==>
                  w.h.sawDelimiter && w.inq == Pop(v.inq))
  {
  }

  /**
   Looking marks a full pipe, so that the next progress report wakes the writer; an active flag then
   means what it says.
   */
  lemma CheckWriteSettles(v: Local)
    ensures var w := Call(v, OpCheckWrite);
            && w == CheckWrite(v)
            && (w.f.outActive && w.c.state == Active <==> CanWrite(v)) && (CanWrite(w) <==> CanWrite(v))
            && w.(f := w.f.(outActive := v.f.outActive)) == v
  {
  }

  /** Once termination was asked for, at whichever moment, the end writes nothing more. */
  lemma TerminationStopsWriting(v: Local, delay: bool)
    requires v.c.state == Active || v.c.state == DelimiterReceived || v.c.state == WaitingForDelimiter
    ensures var w := Call(v, OpTerminate(delay));
            w == Terminate(v, delay) && !w.f.outActive && !CanWrite(w) && w.c.delay == delay
  {
  }

  /** The low watermark is half of the high one, rounded up, and what C++ makes of it if that is negative. */
  lemma LowWatermark(hwm: int)
    ensures var lwm := ComputeLwm(hwm);
            && (if hwm >= -1 then hwm <= 2 * lwm <= hwm + 1 else hwm + 1 <= 2 * lwm <= hwm + 2)
            && (hwm > 0 ==> (lwm < hwm <==> hwm > 1))
  {
  }

  /** A read hands out the first frame that is visible in the queue. */
  lemma ReadDelivers(hwmA: int, hwmB: int, acts: seq<Action>)
    ensures var s := Reached(hwmA, hwmB, acts);
            var v, w := LocalOf(s), Read(LocalOf(s));
            v.f.inActive && v.c.Readable() && Visible(v.inq.published) != [] ==>
              w.h.delivered == v.h.delivered + [Visible(v.inq.published)[0]]
  {
    var s := Reached(hwmA, hwmB, acts);
    ReachedInv(hwmA, hwmB, acts);
    FirstVisible(s.ba);
    DelimiterIsLast(s.b.h.committed, s.a.h.delivered, s.ba);
  }

  /** After the credentials comes the first visible frame, or a delimiter. */
  lemma {:induction false} FirstVisible(q: Queue<Msg>)
    ensures var r := SkipCredentials(q).published;
            && Visible(r) == Visible(q.published)
            && (r != [] && r[0].Frame? ==> Visible(r) != [] && Visible(r)[0] == r[0])
            && (r == [] ==> Visible(q.published) == [])
            && r <= q.published[|q.published| - |r|..]
    decreases |q.published|
  {
    if q.published != [] && q.published[0].Credential() {
      FirstVisible(Pop(q));
      assert q.published[1..][|q.published| - 1 - |SkipCredentials(q).published|..]
          == q.published[|q.published| - |SkipCredentials(q).published|..];
    }
  }

  /** Nothing visible follows a delimiter. */
  lemma DelimiterIsLast(committed: seq<Msg>, delivered: seq<Msg>, q: Queue<Msg>)
    requires Contents(committed, delivered, q)
    ensures var r := SkipCredentials(q).published; r != [] && r[0].Delimiter? ==> Visible(r) == []
  {
    var r := SkipCredentials(q).published;
    if r != [] && r[0].Delimiter? {
      var k := |q.published| - |r|;
      FirstVisible(q);
      Regrouped(q.got, q.published, q.complete, r, k);
      DelimitersToTheEnd(committed, q.got + q.published[..k], r, q.complete);
      NoneVisible(r);
    }
  }

  lemma Regrouped(got: seq<Msg>, published: seq<Msg>, complete: seq<Msg>, r: seq<Msg>, k: nat)
    requires k <= |published| && r <= published[k..] && |r| == |published| - k
    ensures got + published + complete == got + published[..k] + r + complete
  {
    assert published == published[..k] + r;
  }

  lemma DelimitersToTheEnd(s: seq<Msg>, before: seq<Msg>, r: seq<Msg>, after: seq<Msg>)
    requires DelimitersLast(s) && s == before + r + after && r != [] && r[0].Delimiter?
    ensures forall i :: 0 <= i < |r| ==> r[i].Delimiter?
  {
    assert s[|before|] == r[0];
    forall i | 0 <= i < |r| ensures r[i].Delimiter? { assert s[|before| + i] == r[i]; }
  }

  lemma {:induction false} NoneVisible(s: seq<Msg>)
    requires forall i :: 0 <= i < |s| ==> s[i].Delimiter?
    ensures Visible(s) == []
  {
    if s != [] { NoneVisible(s[1..]); }
  }
}
