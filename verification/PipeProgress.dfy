/**
 Termination comes to its end: commands, unfinished handlers and unread frames are used up by every
 step that does anything, and when nothing is left to do after `terminate` both ends are gone.
 */
module PipeProgress {
  import opened Queues
  import opened PipeProtocol
  import opened PipeInvariant
  import opened PipeTheorems

  // ---------------------------------------------------------------- how much is left to do

  /** A reader that is woken may fall asleep again. */
  function ChannelWork(ch: seq<Command>): nat {
    |ch| + multiset(ch)[ActivateRead]
  }

  /** A frame may have to be published, its reader woken, and its reading reported. */
  function QueueWork(q: Queue<Msg>): nat {
    2 * |q.published| + 6 * (|q.complete| + |q.partial|)
  }

  function PcWork(pc: Pc): nat {
    match pc
    case Idle => 0
    case OwesWakeup => 3
    case OwesDelimiter => 7
  }

  function EndWork(c: Control, f: Flow): nat {
    PcWork(c.pc) + (if f.inActive then 1 else 0) + (if c.ackSent == 0 then 2 else 0)
  }

  function LocalWork(v: Local): nat {
    EndWork(v.c, v.f) + QueueWork(v.inq) + QueueWork(v.outq) + ChannelWork(v.sent)
  }

  function Work(s: Sys): nat {
    LocalWork(LocalOf(s)) + EndWork(s.b.c, s.b.f) + ChannelWork(s.toA)
  }

  /** What a call of the user can add: a frame, or a request with its delimiter. */
  function Adds(op: Op): nat {
    if op.OpWrite? then 6 else if op.OpTerminate? then 8 else 0
  }

  /** Steps that work off what is there. */
  predicate Diligent(op: Op) {
    op.OpRead? || op.OpCheckRead? || op.OpRollback? || op.OpFlush? || op.OpReceive? || op.OpResume?
  }

  lemma Sent(ch: seq<Command>, c: Command)
    ensures ChannelWork(ch + [c]) == ChannelWork(ch) + if c == ActivateRead then 2 else 1
  {
  }

  lemma Received(ch: seq<Command>)
    requires ch != []
    ensures ChannelWork(ch) == ChannelWork(ch[1..]) + if ch[0] == ActivateRead then 2 else 1
  {
    assert ch == [ch[0]] + ch[1..];
  }

  // ---------------------------------------------------------------- steps of one end

  /** Either nothing happened, up to what the assertions say, or there is less to do. */
  predicate Lowers(v: Local, w: Local) {
    w.(ok := v.ok) == v || LocalWork(w) < LocalWork(v)
  }

  lemma AckLowers(v: Local, state: State)
    requires v.c.ackSent == 0
    ensures LocalWork(SendAck(v, state)) < LocalWork(v)
  {
    Sent(v.sent, PipeTermAck);
  }

  lemma TakeDelimiterLowers(v: Local, q: Queue<Msg>, p: Control, inbox: seq<Command>)
    requires HandshakeOf(v, p, inbox) && v.c.alive && v.c.Readable() && q.published != []
    requires |q.published| <= |v.inq.published| && q.complete == v.inq.complete && q.partial == v.inq.partial
    ensures LocalWork(TakeDelimiter(v, q)) < LocalWork(v)
  {
    var u := v.(inq := Pop(q), h := v.h.(sawDelimiter := true));
    assert LocalWork(u) < LocalWork(v);
    if v.c.state == WaitingForDelimiter { AckLowers(u, TermAckSent); }
  }

  lemma TakeFrameLowers(v: Local, q: Queue<Msg>)
    requires q.published != []
    requires |q.published| <= |v.inq.published| && q.complete == v.inq.complete && q.partial == v.inq.partial
    ensures LocalWork(TakeFrame(v, q)) < LocalWork(v)
  {
    var w, n := TakeFrame(v, q), v.f.msgsRead + (if q.published[0].Counted() then 1 else 0);
    Sent(v.sent, ActivateWrite(n));
    assert w.sent == v.sent || w.sent == v.sent + [ActivateWrite(n)];
    assert QueueWork(w.inq) == QueueWork(q) - 2 && w.outq == v.outq && EndWork(w.c, w.f) == EndWork(v.c, v.f);
  }

  lemma FallAsleepLowers(v: Local, q: Queue<Msg>)
    requires v.f.inActive && |q.published| <= |v.inq.published| && q.complete == v.inq.complete
             && q.partial == v.inq.partial
    ensures LocalWork(FallAsleep(v, q)) < LocalWork(v)
  {
  }

  lemma ReadLowers(v: Local, p: Control, inbox: seq<Command>)
    requires HandshakeOf(v, p, inbox) && v.c.alive
    ensures if v.f.inActive && v.c.Readable() then LocalWork(Read(v)) < LocalWork(v) else Read(v) == v
  {
    if v.f.inActive && v.c.Readable() {
      var q := SkipCredentials(v.inq);
      if q.published == [] {
        FallAsleepLowers(v, q);
      } else if q.published[0].Delimiter? {
        TakeDelimiterLowers(v, q, p, inbox);
      } else {
        TakeFrameLowers(v, q);
      }
    }
  }

  lemma CheckReadLowers(v: Local, p: Control, inbox: seq<Command>)
    requires HandshakeOf(v, p, inbox) && v.c.alive
    ensures CheckRead(v) == v || LocalWork(CheckRead(v)) < LocalWork(v)
  {
    if v.f.inActive && v.c.Readable() {
      if v.inq.published == [] {
        FallAsleepLowers(v, v.inq);
      } else if v.inq.published[0].Delimiter? {
        TakeDelimiterLowers(v, v.inq, p, inbox);
      }
    }
  }

  lemma RollbackLowers(v: Local)
    ensures Lowers(v, Rollback(v))
  {
    if v.outq.partial == [] { assert UnwriteAll(v.outq) == v.outq; }
  }

  lemma FlushLowers(v: Local)
    requires v.c.pc == Idle
    ensures Lowers(v, FlushQueue(v))
  {
  }

  lemma WakeupLowers(v: Local)
    requires v.c.pc == OwesWakeup
    ensures LocalWork(Wakeup(v)) < LocalWork(v)
  {
    Sent(v.sent, ActivateRead);
  }

  /** The delimiter is published at once; the frames it overtakes are dropped. */
  lemma DelimiterWork(q: Queue<Msg>)
    ensures QueueWork(Flush(Write(UnwriteAll(q), Delimiter, false))) <= QueueWork(q) + 2
  {
  }

  lemma WriteDelimiterLowers(v: Local)
    requires v.c.pc == OwesDelimiter && v.c.outPipe && v.c.state != TermAckSent
    ensures LocalWork(WriteDelimiter(v)) < LocalWork(v)
  {
    var w := WriteDelimiter(v);
    DelimiterWork(v.outq);
    assert w.outq == Flush(Write(UnwriteAll(v.outq), Delimiter, false));
    assert w.inq == v.inq && w.sent == v.sent && w.f == v.f && w.c.ackSent == v.c.ackSent && w.c.pc != OwesDelimiter;
  }

  lemma TermLowers(v: Local)
    requires StateMatchesCounts(v.c) && v.c.alive
    ensures LocalWork(ProcessPipeTerm(v)) <= LocalWork(v)
  {
    var u := v.(c := v.c.(termGot := v.c.termGot + 1));
    assert LocalWork(u) == LocalWork(v);
    if v.c.state.Active? && v.c.delay {
      assert ProcessPipeTerm(v) == u.(c := u.c.(state := WaitingForDelimiter));
    } else if v.c.state.Active? || v.c.state.DelimiterReceived? {
      assert ProcessPipeTerm(v) == SendAck(u, TermAckSent);
      AckLowers(u, TermAckSent);
    } else if v.c.state.TermReqSent1? {
      assert ProcessPipeTerm(v) == SendAck(u, TermReqSent2);
      AckLowers(u, TermReqSent2);
    }
  }

  lemma TermAckLowers(v: Local)
    requires StateMatchesCounts(v.c) && v.c.alive
    ensures LocalWork(ProcessPipeTermAck(v)) <= LocalWork(v)
  {
    var u := v.(c := v.c.(ackGot := v.c.ackGot + 1, alive := false));
    assert LocalWork(u) == LocalWork(v);
    if v.c.state == TermReqSent1 { AckLowers(u, TermReqSent1); }
  }

  lemma CommandLowers(v: Local, c: Command)
    requires StateMatchesCounts(v.c) && v.c.alive
    ensures LocalWork(ProcessCommand(v, c)) <= LocalWork(v) + if c == ActivateRead then 1 else 0
  {
    match c
    case PipeTerm => TermLowers(v);
    case PipeTermAck => TermAckLowers(v);
    case ActivateRead => assert ProcessActivateRead(v).c == v.c;
    case ActivateWrite(n) => assert ProcessActivateWrite(v, n).c == v.c;
  }

  lemma WriteAdds(v: Local, m: Msg)
    ensures LocalWork(WriteFrame(v, m)) <= LocalWork(v) + 6
    ensures LocalWork(CheckWrite(v)) == LocalWork(v)
  {
    var q, w := Write(v.outq, m, m.More()), WriteFrame(v, m);
    assert QueueWork(q) == QueueWork(v.outq) + 6;
    assert w.inq == v.inq && w.sent == v.sent && w.c == v.c && w.f.inActive == v.f.inActive
           && (w.outq == v.outq || w.outq == q);
  }

  lemma TerminateAdds(v: Local, delay: bool)
    requires StateMatchesCounts(v.c) && v.c.alive && v.c.pc == Idle
    ensures LocalWork(Terminate(v, delay)) <= LocalWork(v) + 8
  {
    Sent(v.sent, PipeTerm);
    if v.c.state == WaitingForDelimiter && !delay {
      var u := Rollback(v.(c := v.c.(delay := delay), f := v.f.(outActive := false)));
      assert LocalWork(u) <= LocalWork(v) && u.c.ackSent == 0;
      AckLowers(u, TermAckSent);
    }
  }

  // ---------------------------------------------------------------- steps of the pair

  lemma ResumeWorks(s: Sys)
    requires Inv(s)
    ensures var t := StepA(s, OpResume); if s.a.c.alive && s.a.c.pc != Idle then Work(t) < Work(s) else t == s
  {
    var v := LocalOf(s);
    if s.a.c.alive {
      if v.c.pc == OwesWakeup { WakeupLowers(v); }
      if v.c.pc == OwesDelimiter { WriteDelimiterLowers(v); }
    }
  }

  lemma ReceiveWorks(s: Sys)
    requires Inv(s)
    ensures var t := StepA(s, OpReceive);
            if s.a.c.alive && s.a.c.pc == Idle && s.toA != [] then Work(t) < Work(s) else t == s
  {
    if s.a.c.alive && s.a.c.pc == Idle && s.toA != [] {
      Received(s.toA);
      CommandLowers(LocalOf(s), s.toA[0]);
      assert LocalOf(s.(toA := s.toA[1..])) == LocalOf(s);
    }
  }

  /** A call changes the work of the pair as it changes that of the end. */
  lemma CallWorks(s: Sys, op: Op)
    requires s.a.c.alive && s.a.c.pc == Idle && op != OpResume && op != OpReceive
    ensures Work(StepA(s, op)) - Work(s) == LocalWork(Call(LocalOf(s), op)) - LocalWork(LocalOf(s))
  {
    var w := Call(LocalOf(s), op);
    assert LocalOf(Put(s, w)) == w.(peerAlive := s.b.c.alive);
  }

  /** A call that works something off or does nothing. */
  lemma LoweringCallWorks(s: Sys, op: Op)
    requires Inv(s) && s.a.c.alive && s.a.c.pc == Idle && op != OpResume && op != OpReceive
    requires Lowers(LocalOf(s), Call(LocalOf(s), op))
    ensures StepA(s, op) == s || Work(StepA(s, op)) < Work(s)
  {
    StepAKeepsInv(s, op);
    assert s.ok && StepA(s, op).ok;
    CallWorks(s, op);
  }

  lemma ReadWorks(s: Sys)
    requires Inv(s)
    ensures StepA(s, OpRead) == s || Work(StepA(s, OpRead)) < Work(s)
    ensures s.a.c.alive && s.a.c.pc == Idle && s.a.f.inActive && s.a.c.Readable() ==> Work(StepA(s, OpRead)) < Work(s)
  {
    if s.a.c.alive && s.a.c.pc == Idle {
      ReadLowers(LocalOf(s), s.b.c, s.toA);
      CallWorks(s, OpRead);
    }
  }

  lemma CheckReadWorks(s: Sys)
    requires Inv(s)
    ensures StepA(s, OpCheckRead) == s || Work(StepA(s, OpCheckRead)) < Work(s)
  {
    if s.a.c.alive && s.a.c.pc == Idle {
      CheckReadLowers(LocalOf(s), s.b.c, s.toA);
      CallWorks(s, OpCheckRead);
    }
  }

  lemma StepAWorks(s: Sys, op: Op)
    requires Inv(s) && Diligent(op)
    ensures StepA(s, op) == s || Work(StepA(s, op)) < Work(s)
  {
    match op
    case OpResume => ResumeWorks(s);
    case OpReceive => ReceiveWorks(s);
    case OpRollback =>
      RollbackLowers(LocalOf(s));
      if s.a.c.alive && s.a.c.pc == Idle { LoweringCallWorks(s, op); }
    case OpFlush =>
      if s.a.c.alive && s.a.c.pc == Idle {
        FlushLowers(LocalOf(s));
        LoweringCallWorks(s, op);
      }
    case OpCheckRead => CheckReadWorks(s);
    case OpRead => ReadWorks(s);
    case _ =>
  }

  lemma CallAdds(v: Local, op: Op)
    requires StateMatchesCounts(v.c) && v.c.alive && v.c.pc == Idle && !Diligent(op)
    ensures LocalWork(Call(v, op)) <= LocalWork(v) + Adds(op)
  {
    match op
    case OpWrite(more, routingId, credential, body) => WriteAdds(v, Frame(more, routingId, credential, body));
    case OpTerminate(delay) => TerminateAdds(v, delay);
    case OpCheckWrite => WriteAdds(v, Delimiter);
    case _ =>
  }

  /** Calls of the user add at most what they bring. */
  lemma StepAAdds(s: Sys, op: Op)
    requires Inv(s)
    ensures Work(StepA(s, op)) <= Work(s) + Adds(op)
  {
    if Diligent(op) {
      StepAWorks(s, op);
    } else if s.a.c.alive && s.a.c.pc == Idle {
      CallAdds(LocalOf(s), op);
      CallWorks(s, op);
    }
  }

  lemma SwapWork(s: Sys)
    ensures Work(Swap(s)) == Work(s)
  {
  }

  lemma StepWorks(s: Sys, act: Action)
    requires Inv(s)
    ensures Diligent(act.op) ==> Step(s, act) == s || Work(Step(s, act)) < Work(s)
    ensures Work(Step(s, act)) <= Work(s) + Adds(act.op)
  {
    var t := if act.byA then s else Swap(s);
    SwapKeepsInv(s);
    SwapWork(s);
    SwapWork(StepA(t, act.op));
    if Diligent(act.op) { StepAWorks(t, act.op); }
    StepAAdds(t, act.op);
  }

  // ---------------------------------------------------------------- every run

  /** The steps of a run that worked something off. */
  function Effective(s: Sys, acts: seq<Action>): nat
    decreases |acts|
  {
    if acts == [] then 0
    else
      var prev, act := acts[..|acts| - 1], acts[|acts| - 1];
      var t := Run(s, prev);
      Effective(s, prev) + if Diligent(act.op) && Step(t, act) != t then 1 else 0
  }

  function AddedBy(acts: seq<Action>): nat {
    if acts == [] then 0 else AddedBy(acts[..|acts| - 1]) + Adds(acts[|acts| - 1].op)
  }

  /**
   In every run, whatever the interleaving and whatever the users do, the steps that do anything but
   the users' writes and requests are at most as many as there is work at first and work added.
   */
  lemma {:induction false} WorkIsBounded(s: Sys, acts: seq<Action>)
    requires Inv(s)
    ensures Inv(Run(s, acts)) && Effective(s, acts) + Work(Run(s, acts)) <= Work(s) + AddedBy(acts)
    decreases |acts|
  {
    if acts != [] {
      var prev, act := acts[..|acts| - 1], acts[|acts| - 1];
      WorkIsBounded(s, prev);
      StepKeepsInv(Run(s, prev), act);
      StepWorks(Run(s, prev), act);
    }
  }

  // ---------------------------------------------------------------- the end of termination

  /** One of the ends has asked for termination. */
  predicate Started(s: Sys) {
    s.a.c.termSent > 0 || s.b.c.termSent > 0
  }

  predicate BothGone(s: Sys) {
    !s.a.c.alive && !s.b.c.alive
  }

  /** Neither end has a command to process, a handler to finish or a frame to read. */
  predicate Stuck(s: Sys) {
    forall byA :: && Step(s, Action(byA, OpReceive)) == s && Step(s, Action(byA, OpResume)) == s
                  && Step(s, Action(byA, OpRead)) == s
  }

  lemma StuckEnd(s: Sys)
    requires Inv(s) && StepA(s, OpReceive) == s && StepA(s, OpResume) == s && StepA(s, OpRead) == s
    ensures s.a.c.pc == Idle && s.toA == []
    ensures !DrainingTowardsDelimiter(s.b, s.a, s.ba)
  {
    ResumeWorks(s);
    ReceiveWorks(s);
    ReadWorks(s);
  }

  /** When there is nothing left to do after `terminate`, both ends are gone. */
  lemma StuckMeansGone(s: Sys)
    requires Inv(s) && Started(s) && Stuck(s)
    ensures BothGone(s)
  {
    assert Step(s, Action(true, OpReceive)) == s && Step(s, Action(true, OpResume)) == s
           && Step(s, Action(true, OpRead)) == s;
    StuckEnd(s);
    SwapKeepsInv(s);
    assert Step(s, Action(false, OpReceive)) == s && Step(s, Action(false, OpResume)) == s
           && Step(s, Action(false, OpRead)) == s;
    StuckEnd(Swap(s));
    QuietMeans(s);
  }

  lemma ReadKeepsRequest(v: Local)
    ensures Read(v).c.termSent == CheckRead(v).c.termSent == v.c.termSent
  {
  }

  lemma CallKeepsRequest(v: Local, op: Op)
    ensures Call(v, op).c.termSent >= v.c.termSent
  {
    match op
    case OpRead => ReadKeepsRequest(v);
    case OpCheckRead => ReadKeepsRequest(v);
    case OpWrite(more, routingId, credential, body) =>
      assert WriteFrame(v, Frame(more, routingId, credential, body)).c == v.c;
    case OpTerminate(delay) => assert Terminate(v, delay).c.termSent >= v.c.termSent;
    case OpRollback => assert Rollback(v).c == v.c;
    case OpFlush => assert FlushQueue(v).c.termSent == v.c.termSent;
    case _ =>
  }

  lemma CommandKeepsRequest(v: Local, c: Command)
    ensures ProcessCommand(v, c).c.termSent == v.c.termSent
  {
  }

  lemma StepAKeepsRequest(s: Sys, op: Op)
    ensures StepA(s, op).a.c.termSent >= s.a.c.termSent && StepA(s, op).b.c.termSent == s.b.c.termSent
  {
    CallKeepsRequest(LocalOf(s), op);
    if s.toA != [] { CommandKeepsRequest(LocalOf(s), s.toA[0]); }
  }

  lemma StepKeepsRequest(s: Sys, act: Action)
    requires Started(s)
    ensures Started(Step(s, act))
  {
    StepAKeepsRequest(s, act.op);
    StepAKeepsRequest(Swap(s), act.op);
  }

  predicate NothingDone(s: Sys, acts: seq<Action>) {
    forall act :: act in acts ==> Step(s, act) == s
  }

  lemma NothingDoneAppend(s: Sys, prev: seq<Action>, act: Action)
    requires NothingDone(s, prev) && Step(s, act) == s
    ensures NothingDone(s, prev + [act])
  {
  }

  lemma {:induction false} RunKeepsRequest(s: Sys, acts: seq<Action>)
    requires Started(s)
    ensures Started(Run(s, acts))
    decreases |acts|
  {
    if acts != [] {
      RunKeepsRequest(s, acts[..|acts| - 1]);
      StepKeepsRequest(Run(s, acts[..|acts| - 1]), acts[|acts| - 1]);
    }
  }

  /** `t` is reached from `s` by `acts`: something was worked off, or nothing was done at all. */
  predicate Worked(s: Sys, acts: seq<Action>, t: Sys) {
    Work(t) < Work(s) || (t == s && NothingDone(s, acts))
  }

  lemma WorkedNext(s: Sys, prev: seq<Action>, t: Sys, act: Action)
    requires Worked(s, prev, t) && Inv(t) && Diligent(act.op)
    ensures Worked(s, prev + [act], Step(t, act))
  {
    StepWorks(t, act);
    if t == s && Step(t, act) == t && NothingDone(s, prev) { NothingDoneAppend(s, prev, act); }
  }

  lemma LastAction(acts: seq<Action>)
    requires acts != []
    ensures acts == acts[..|acts| - 1] + [acts[|acts| - 1]]
  {
  }

  /** A round of steps works something off, or none of them does anything. */
  lemma {:induction false} RoundWorks(s: Sys, acts: seq<Action>)
    requires Inv(s) && forall act :: act in acts ==> Diligent(act.op)
    ensures Worked(s, acts, Run(s, acts))
    decreases |acts|
  {
    if acts != [] {
      var prev, act := acts[..|acts| - 1], acts[|acts| - 1];
      LastAction(acts);
      RoundWorks(s, prev);
      WorkIsBounded(s, prev);
      WorkedNext(s, prev, Run(s, prev), act);
    }
  }

  /** Both ends receive, resume and read at least once, in any order, among other steps that add nothing. */
  predicate Round(acts: seq<Action>) {
    && (forall act :: act in acts ==> Diligent(act.op))
    && (forall byA :: Action(byA, OpReceive) in acts && Action(byA, OpResume) in acts && Action(byA, OpRead) in acts)
  }

  function RunRounds(s: Sys, rounds: seq<seq<Action>>): Sys
    decreases |rounds|
  {
    if rounds == [] then s else Run(RunRounds(s, rounds[..|rounds| - 1]), rounds[|rounds| - 1])
  }

  lemma {:induction false} RoundsWork(s: Sys, rounds: seq<seq<Action>>)
    requires Inv(s) && Started(s) && forall r :: r in rounds ==> Round(r)
    ensures var t := RunRounds(s, rounds); Inv(t) && Started(t) && (BothGone(t) || Work(t) + |rounds| <= Work(s))
    decreases |rounds|
  {
    if rounds != [] {
      var prev, last := rounds[..|rounds| - 1], rounds[|rounds| - 1];
      var t := RunRounds(s, prev);
      RoundsWork(s, prev);
      assert Round(last);
      RoundWorks(t, last);
      WorkIsBounded(t, last);
      RunKeepsRequest(t, last);
      if BothGone(t) {
        GoneStays(t, last);
      } else if !(Work(Run(t, last)) < Work(t)) {
        StuckMeansGone(t);
      }
    }
  }

  lemma {:induction false} GoneStays(s: Sys, acts: seq<Action>)
    requires BothGone(s)
    ensures Run(s, acts) == s
    decreases |acts|
  {
    if acts != [] { GoneStays(s, acts[..|acts| - 1]); }
  }

  /**
   After `terminate` at either end, from every state that any run reaches, both ends are gone when they
   have taken turns for more rounds than there was work to do. Until then they may be interleaved in any way.
   */
  lemma TerminationCompletes(hwmA: int, hwmB: int, acts: seq<Action>, rounds: seq<seq<Action>>)
    requires Started(Reached(hwmA, hwmB, acts)) && forall r :: r in rounds ==> Round(r)
    requires |rounds| > Work(Reached(hwmA, hwmB, acts))
    ensures BothGone(RunRounds(Reached(hwmA, hwmB, acts), rounds))
  {
    ReachedInv(hwmA, hwmB, acts);
    RoundsWork(Reached(hwmA, hwmB, acts), rounds);
  }
}
