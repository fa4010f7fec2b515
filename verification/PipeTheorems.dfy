/** What holds of two connected pipe ends after every run, whatever the interleaving. */
module PipeTheorems {
  import opened Queues
  import opened PipeProtocol
  import opened PipeInvariant

  /** The state after any run of a fresh pair. */
  function Reached(hwmA: int, hwmB: int, acts: seq<Action>): Sys {
    Run(Pipepair(hwmA, hwmB), acts)
  }

  lemma ReachedInv(hwmA: int, hwmB: int, acts: seq<Action>)
    ensures Inv(Reached(hwmA, hwmB, acts))
  {
    PipepairInv(hwmA, hwmB);
    RunKeepsInv(Pipepair(hwmA, hwmB), acts);
  }

  /** The same run with the two ends exchanged. */
  function Mirrored(acts: seq<Action>): (r: seq<Action>)
    ensures |r| == |acts|
  {
    seq(|acts|, i requires 0 <= i < |acts| => Action(!acts[i].byA, acts[i].op))
  }

  /** The ends are alike: what is proved of the one holds of the other. */
  lemma {:induction false} MirroredRun(hwmA: int, hwmB: int, acts: seq<Action>)
    ensures Swap(Reached(hwmA, hwmB, acts)) == Reached(hwmB, hwmA, Mirrored(acts))
    decreases |acts|
  {
    if acts != [] {
      var prev, act := acts[..|acts| - 1], acts[|acts| - 1];
      MirroredRun(hwmA, hwmB, prev);
      assert Mirrored(acts)[..|acts| - 1] == Mirrored(prev);
      assert Mirrored(acts)[|acts| - 1] == Action(!act.byA, act.op);
      MirroredStep(Reached(hwmA, hwmB, prev), act);
    }
  }

  lemma MirroredStep(s: Sys, act: Action)
    ensures Swap(Step(s, act)) == Step(Swap(s), Action(!act.byA, act.op))
  {
    assert Swap(Swap(s)) == s;
  }

  // ---------------------------------------------------------------- termination is safe

  /**
   No `zmq_assert` fails and no freed queue or endpoint is touched. Each end sends at most one
   `pipe_term` and at most one `pipe_term_ack`; an end that is gone has sent its ack, and no
   command is on its way to it.
   */
  lemma TerminationIsSafe(hwmA: int, hwmB: int, acts: seq<Action>)
    ensures var s := Reached(hwmA, hwmB, acts);
            && s.ok
            && s.a.c.termSent <= 1 && s.a.c.ackSent <= 1
            && s.b.c.termSent <= 1 && s.b.c.ackSent <= 1
            && (!s.a.c.alive ==> s.a.c.ackSent == 1 && s.toA == [] && !s.b.c.outPipe)
            && (!s.b.c.alive ==> s.b.c.ackSent == 1 && s.toB == [] && !s.a.c.outPipe)
  {
    ReachedInv(hwmA, hwmB, acts);
  }

  /** After its ack an end sends nothing more and no longer holds its outbound queue. */
  lemma SilentAfterAck(hwmA: int, hwmB: int, acts: seq<Action>, op: Op)
    ensures var s := Reached(hwmA, hwmB, acts);
            var t := StepA(s, op);
            s.a.c.ackSent > 0 ==> t.toB == s.toB && t.ab == s.ab && t.a.c.ackSent == 1 && !t.a.c.outPipe
  {
    var s := Reached(hwmA, hwmB, acts);
    ReachedInv(hwmA, hwmB, acts);
    if s.a.c.ackSent > 0 {
      StepAKeepsInv(s, op);
      SilentStep(s, op);
    }
  }

  lemma SilentCall(v: Local, op: Op)
    requires !v.c.outPipe && (v.c.state == TermAckSent || v.c.state == TermReqSent2)
    ensures var w := Call(v, op);
            w.sent == v.sent && w.outq == v.outq && w.c.ackSent == v.c.ackSent && w.c.outPipe == v.c.outPipe
  {
  }

  lemma SilentReceive(v: Local, c: Command)
    requires !v.c.outPipe && (v.c.state == TermAckSent || v.c.state == TermReqSent2)
    ensures var w := ProcessCommand(v, c);
            w.sent == v.sent && w.outq == v.outq && w.c.ackSent == v.c.ackSent && w.c.outPipe == v.c.outPipe
  {
  }

  lemma SilentStep(s: Sys, op: Op)
    requires HandshakeOf(LocalOf(s), s.b.c, s.toA) && s.a.c.ackSent > 0
    ensures var t := StepA(s, op);
            t.toB == s.toB && t.ab == s.ab && t.a.c.ackSent == s.a.c.ackSent && t.a.c.outPipe == s.a.c.outPipe
  {
    if s.a.c.alive {
      SilentCall(LocalOf(s), op);
      if s.toA != [] { SilentReceive(LocalOf(s), s.toA[0]); }
    }
  }

  /** An end whose thread is between handlers, with both command channels empty. */
  predicate Quiet(s: Sys) {
    s.toA == [] && s.toB == [] && s.a.c.pc == Idle && s.b.c.pc == Idle
  }

  /** `w` asked to terminate; `r` is awake and still has the delimiter ahead of it. */
  predicate DrainingTowardsDelimiter(w: Endpoint, r: Endpoint, q: Queue<Msg>) {
    && w.c.alive && w.c.state == TermReqSent1
    && r.c.alive && r.c.state == WaitingForDelimiter
    && r.f.inActive && Delimiter in q.published
  }

  /**
   The handshake cannot get stuck: when no command is left to process, either nothing was
   terminated, or both ends are gone, or one end is still reading towards a published delimiter.
   */
  lemma HandshakeCannotStall(hwmA: int, hwmB: int, acts: seq<Action>)
    ensures var s := Reached(hwmA, hwmB, acts);
            Quiet(s) ==>
              || (s.a.c.alive && s.b.c.alive && s.a.c.state == Active && s.b.c.state == Active)
              || (!s.a.c.alive && !s.b.c.alive)
              || DrainingTowardsDelimiter(s.a, s.b, s.ab)
              || DrainingTowardsDelimiter(s.b, s.a, s.ba)
  {
    ReachedInv(hwmA, hwmB, acts);
    if Quiet(Reached(hwmA, hwmB, acts)) { QuietMeans(Reached(hwmA, hwmB, acts)); }
  }

  lemma QuietMeans(s: Sys)
    requires Inv(s) && Quiet(s)
    ensures || (s.a.c.alive && s.b.c.alive && s.a.c.state == Active && s.b.c.state == Active)
            || (!s.a.c.alive && !s.b.c.alive)
            || DrainingTowardsDelimiter(s.a, s.b, s.ab)
            || DrainingTowardsDelimiter(s.b, s.a, s.ba)
  {
    QuietStates(s);
    if s.a.c.alive && s.a.c.state == TermReqSent1 { QuietDrain(s); }
    if s.b.c.alive && s.b.c.state == TermReqSent1 {
      SwapKeepsInv(s);
      QuietDrain(Swap(s));
    }
  }

  lemma QuietStates(s: Sys)
    requires Inv(s) && Quiet(s)
    ensures s.a.c.alive == s.b.c.alive
    ensures s.a.c.alive ==>
              || (s.a.c.state == Active && s.b.c.state == Active)
              || (s.a.c.state == TermReqSent1 && s.b.c.state == WaitingForDelimiter)
              || (s.b.c.state == TermReqSent1 && s.a.c.state == WaitingForDelimiter)
  {
  }

  lemma QuietDrain(s: Sys)
    requires Inv(s) && Quiet(s) && s.a.c.alive && s.a.c.state == TermReqSent1
    ensures DrainingTowardsDelimiter(s.a, s.b, s.ab)
  {
    QuietStates(s);
    assert Delimiter in s.ab.Log();
    assert Delimiter in s.ab.published;
  }

  // ---------------------------------------------------------------- delivery

  lemma {:induction false} OnlyDelimitersHaveNoPayload(s: seq<Msg>)
    requires forall m :: m in s ==> m.Delimiter?
    ensures Payload(s) == []
  {
    if s != [] { OnlyDelimitersHaveNoPayload(s[..|s| - 1]); }
  }

  lemma InOrder(committed: seq<Msg>, delivered: seq<Msg>, q: Queue<Msg>)
    requires Contents(committed, delivered, q)
    ensures delivered <= Payload(committed)
    ensures !Clean(q.got) ==> delivered == Payload(committed)
  {
    var rest := q.published + q.complete;
    assert committed == q.got + rest;
    PayloadConcat(q.got, rest);
    if !Clean(q.got) {
      OnlyDelimitersFollow(q.got, rest);
      OnlyDelimitersHaveNoPayload(rest);
    }
  }

  lemma OnlyDelimitersFollow(got: seq<Msg>, rest: seq<Msg>)
    requires DelimitersLast(got + rest) && !Clean(got)
    ensures forall m :: m in rest ==> m.Delimiter?
  {
    var i :| 0 <= i < |got| && got[i] == Delimiter;
    forall m | m in rest ensures m.Delimiter? {
      var j :| 0 <= j < |rest| && rest[j] == m;
      assert (got + rest)[i].Delimiter? && (got + rest)[|got| + j] == m;
    }
  }

  /**
   What an end has read is, in order, a prefix of what its peer completed; once it has taken the
   peer's delimiter it has read all of it, and no message is ever published in part.
   */
  lemma DeliveryInOrder(hwmA: int, hwmB: int, acts: seq<Action>)
    ensures var s := Reached(hwmA, hwmB, acts);
            && s.b.h.delivered <= Payload(s.a.h.committed)
            && s.a.h.delivered <= Payload(s.b.h.committed)
            && (s.b.h.sawDelimiter ==> s.b.h.delivered == Payload(s.a.h.committed))
            && (s.a.h.sawDelimiter ==> s.a.h.delivered == Payload(s.b.h.committed))
            && WholeMessages(s.ab.got + s.ab.published)
            && WholeMessages(s.ba.got + s.ba.published)
  {
    var s := Reached(hwmA, hwmB, acts);
    ReachedInv(hwmA, hwmB, acts);
    InOrder(s.a.h.committed, s.b.h.delivered, s.ab);
    InOrder(s.b.h.committed, s.a.h.delivered, s.ba);
  }

  // what termination cuts off

  /**
   A pipe that is terminated without delay cannot be read any more, by whichever end asks; with delay
   it can, if the peer asked.
   */
  lemma TerminationStopsReading(v: Local)
    requires v.c.Readable()
    ensures !Terminate(v, false).c.Readable()
    ensures Terminate(v, true).c.Readable() <==> v.c.state == WaitingForDelimiter
    ensures v.c.state == Active ==> (ProcessPipeTerm(v).c.Readable() <==> v.c.delay)
    ensures v.c.state == Active ==> !ProcessPipeTerm(Call(v, OpSetNodelay)).c.Readable()
  {
  }

  lemma UnreadableCall(v: Local, op: Op)
    requires !v.c.Readable()
    ensures var w := Call(v, op); !w.c.Readable() && w.h.delivered == v.h.delivered
  {
  }

  lemma UnreadableResume(v: Local)
    requires !v.c.Readable()
    ensures var w := Resume(v); !w.c.Readable() && w.h.delivered == v.h.delivered
  {
  }

  lemma UnreadableReceive(v: Local, c: Command)
    requires !v.c.Readable()
    ensures var w := ProcessCommand(v, c); !w.c.Readable() && w.h.delivered == v.h.delivered
  {
  }

  /** From then on no run delivers anything, although messages may be published and one may be open. */
  lemma {:induction false} NothingAfterTermination(s: Sys, acts: seq<Action>)
    requires !s.a.c.Readable()
    ensures !Run(s, acts).a.c.Readable() && Run(s, acts).a.h.delivered == s.a.h.delivered
    decreases |acts|
  {
    if acts != [] {
      var prev, act := acts[..|acts| - 1], acts[|acts| - 1];
      NothingAfterTermination(s, prev);
      var t := Run(s, prev);
      if act.byA {
        UnreadableStep(t, act.op);
      } else {
        PeerKeepsReader(Swap(t), act.op);
      }
    }
  }

  lemma UnreadableStep(s: Sys, op: Op)
    requires !s.a.c.Readable()
    ensures !StepA(s, op).a.c.Readable() && StepA(s, op).a.h.delivered == s.a.h.delivered
  {
    var v := LocalOf(s);
    UnreadableCall(v, op);
    UnreadableResume(v);
    if s.toA != [] { UnreadableReceive(v, s.toA[0]); }
  }

  lemma PeerKeepsReader(s: Sys, op: Op)
    ensures StepA(s, op).b == s.b
  {
  }

  /** A run in which the second part of a message is published when the first has been read. */
  lemma MessageCanBeOpen()
    ensures var w1, w2 := Action(true, OpWrite(true, false, false, 1)), Action(true, OpWrite(false, false, false, 2));
            var s := Reached(0, 0, [w1, w2, Action(true, OpFlush), Action(false, OpRead)]);
            && s.b.h.delivered == [Frame(true, false, false, 1)] && s.ab.published == [Frame(false, false, false, 2)]
            && s.b.c.state == Active && s.b.c.pc == Idle && s.b.c.alive
  {
    var w1, w2 := Action(true, OpWrite(true, false, false, 1)), Action(true, OpWrite(false, false, false, 2));
    var f, r := Action(true, OpFlush), Action(false, OpRead);
    var all := [w1, w2, f, r];
    assert all[..3] == [w1, w2, f] && all[..3][..2] == [w1, w2] && [w1, w2][..1] == [w1] && [w1][..0] == [];
    var s0 := Pipepair(0, 0);
    var s1 := Step(s0, w1);
    var s2 := Step(s1, w2);
    var s3 := Step(s2, f);
    assert Run(s0, [w1]) == s1;
    assert Run(s0, [w1, w2]) == s2;
    assert Run(s0, all[..3]) == s3;
    assert Run(s0, all) == Step(s3, r);
    TwoPartsPublished(s0, s1, s2, s3, w1, w2, f);
    FirstPartRead(s3);
  }

  lemma TwoPartsPublished(s0: Sys, s1: Sys, s2: Sys, s3: Sys, w1: Action, w2: Action, f: Action)
    requires s0 == Pipepair(0, 0) && s1 == Step(s0, w1) && s2 == Step(s1, w2) && s3 == Step(s2, f)
    requires w1 == Action(true, OpWrite(true, false, false, 1)) && w2 == Action(true, OpWrite(false, false, false, 2))
    requires f == Action(true, OpFlush)
    ensures s3.b == s0.b
            && s3.ab == Queue([], [Frame(true, false, false, 1), Frame(false, false, false, 2)], [], [], false)
  {
    assert s1.ab == Queue([], [], [], [Frame(true, false, false, 1)], false) && s1.a.c == s0.a.c;
    assert s2.ab.complete == [Frame(true, false, false, 1), Frame(false, false, false, 2)];
  }

  lemma FirstPartRead(s: Sys)
    requires s.b == Pipepair(0, 0).b
    requires s.ab == Queue([], [Frame(true, false, false, 1), Frame(false, false, false, 2)], [], [], false)
    ensures var t := Step(s, Action(false, OpRead));
            && t.b.h.delivered == [Frame(true, false, false, 1)] && t.ab.published == [Frame(false, false, false, 2)]
            && t.b.c == s.b.c
  {
    assert SkipCredentials(s.ab) == s.ab;
    assert Read(LocalOf(Swap(s))) == TakeFrame(LocalOf(Swap(s)), s.ab);
  }

  /** A reader that sleeps on published data is being woken, by exactly one command. */
  lemma DormantReaderIsWoken(hwmA: int, hwmB: int, acts: seq<Action>)
    ensures var s := Reached(hwmA, hwmB, acts);
            && (s.b.c.alive && s.b.c.Readable() && !s.b.f.inActive && s.ab.published != [] ==>
                  WakeupsOwed(s.a.c.pc, s.toB) == 1)
            && (s.a.c.alive && s.a.c.Readable() && !s.a.f.inActive && s.ba.published != [] ==>
                  WakeupsOwed(s.b.c.pc, s.toA) == 1)
  {
    ReachedInv(hwmA, hwmB, acts);
  }

  // ---------------------------------------------------------------- watermarks

  /** Complete messages that end in a credential frame: written and counted, never counted as read. */
  function Credentials(s: seq<Msg>): nat {
    if s == [] then 0
    else
      var last := s[|s| - 1];
      Credentials(s[..|s| - 1]) + (if last.Counted() && last.Credential() then 1 else 0)
  }

  lemma {:induction false} CountedSplits(s: seq<Msg>)
    ensures Counted(s) == Counted(Payload(s)) + Credentials(s)
  {
    if s != [] {
      var front, last := s[..|s| - 1], s[|s| - 1];
      CountedSplits(front);
      if last.Frame? && !last.Credential() {
        CountedAppend(Payload(front), last);
      } else {
        assert Payload(s) == Payload(front);
      }
    }
  }

  /**
   `_peers_msgs_read <= peer's _msgs_read <= _msgs_written <= peer's _msgs_read + hwm`: the unsigned
   subtraction in `check_hwm` never wraps and at most `hwm` messages are unread.
   */
  lemma WatermarkBound(hwmA: int, hwmB: int, acts: seq<Action>)
    ensures var s := Reached(hwmA, hwmB, acts);
            && s.a.f.peersMsgsRead <= s.b.f.msgsRead <= s.a.f.msgsWritten
            && s.b.f.peersMsgsRead <= s.a.f.msgsRead <= s.b.f.msgsWritten
            && (hwmA > 0 ==> s.a.f.msgsWritten <= s.b.f.msgsRead + hwmA)
            && (hwmB > 0 ==> s.b.f.msgsWritten <= s.a.f.msgsRead + hwmB)
  {
    var s := Reached(hwmA, hwmB, acts);
    ReachedInv(hwmA, hwmB, acts);
    HwmIsConstant(hwmA, hwmB, acts);
    ReadAtMostWritten(s.a.h.committed, s.b.h.delivered, s.ab);
    ReadAtMostWritten(s.b.h.committed, s.a.h.delivered, s.ba);
  }

  lemma ReadAtMostWritten(committed: seq<Msg>, delivered: seq<Msg>, q: Queue<Msg>)
    requires Contents(committed, delivered, q)
    ensures Counted(delivered) <= Counted(committed)
  {
    assert committed == q.got + (q.published + q.complete);
    CountedConcat(q.got, q.published + q.complete);
    CountedSplits(q.got);
  }

  lemma StepKeepsHwm(s: Sys, op: Op)
    ensures StepA(s, op).a.f.hwm == s.a.f.hwm && StepA(s, op).b == s.b
  {
    CallKeepsHwm(LocalOf(s), op);
  }

  lemma CallKeepsHwm(v: Local, op: Op)
    ensures Call(v, op).f.hwm == v.f.hwm
  {
    ReadFrame(v);
    CheckReadFrame(v);
    if IsQuiet(op) { QuietFrame(v, op); }
  }

  lemma {:induction false} HwmIsConstant(hwmA: int, hwmB: int, acts: seq<Action>)
    ensures Reached(hwmA, hwmB, acts).a.f.hwm == hwmA && Reached(hwmA, hwmB, acts).b.f.hwm == hwmB
    decreases |acts|
  {
    if acts != [] {
      var prev, act := acts[..|acts| - 1], acts[|acts| - 1];
      HwmIsConstant(hwmA, hwmB, prev);
      StepKeepsHwm(Reached(hwmA, hwmB, prev), act.op);
      StepKeepsHwm(Swap(Reached(hwmA, hwmB, prev)), act.op);
    }
  }

  /** The reader has taken everything ever completed and its last progress report has arrived. */
  predicate CaughtUp(s: Sys) {
    && s.ab.published == [] && s.ab.complete == []
    && (forall c :: c in s.toA ==> !c.ActivateWrite?)
  }

  lemma {:induction false} NoReportInFlight(known: nat, ch: seq<Command>)
    requires forall c :: c in ch ==> !c.ActivateWrite?
    ensures LastReport(known, ch) == known
  {
    if ch != [] { NoReportInFlight(known, ch[..|ch| - 1]); }
  }

  /**
   Exactly when the reader has caught up, an active writer is held back: it may write unless the
   credential messages so far, which are counted when written but not when read, together with the
   messages read since the last report have used up the high watermark.
   */
  lemma StalledExactlyByCredentials(hwmA: int, hwmB: int, acts: seq<Action>)
    ensures var s := Reached(hwmA, hwmB, acts);
            CaughtUp(s) && s.a.c.alive && s.a.c.state == Active ==>
              (CanWrite(LocalOf(s)) <==>
               (hwmA > 0 ==> Credentials(s.a.h.committed) + s.b.f.msgsRead % ((hwmA + 1) / 2) < hwmA))
  {
    var s := Reached(hwmA, hwmB, acts);
    ReachedInv(hwmA, hwmB, acts);
    HwmIsConstant(hwmA, hwmB, acts);
    if CaughtUp(s) && s.a.c.alive && s.a.c.state == Active {
      NoReportInFlight(s.a.f.peersMsgsRead, s.toA);
      assert s.ab.Log() == s.ab.got;
      CountedSplits(s.ab.got);
    }
  }

  /** Without credential frames a writer whose reader has caught up is never held back. */
  lemma NoStalledWriter(hwmA: int, hwmB: int, acts: seq<Action>)
    requires forall act :: act in acts ==> !(act.op.OpWrite? && act.op.credential)
    ensures var s := Reached(hwmA, hwmB, acts);
            CaughtUp(s) && s.a.c.alive && s.a.c.state == Active ==> CanWrite(LocalOf(s))
  {
    var s := Reached(hwmA, hwmB, acts);
    StalledExactlyByCredentials(hwmA, hwmB, acts);
    NoCredentialsWritten(hwmA, hwmB, acts);
    assert forall m :: m in s.a.h.committed ==> !m.Credential();
    NoCredentials(s.a.h.committed);
  }

  /** The same for the other end as the writer. */
  lemma NoStalledPeer(hwmA: int, hwmB: int, acts: seq<Action>)
    requires forall act :: act in acts ==> !(act.op.OpWrite? && act.op.credential)
    ensures var s := Reached(hwmA, hwmB, acts);
            CaughtUp(Swap(s)) && s.b.c.alive && s.b.c.state == Active ==> CanWrite(LocalOf(Swap(s)))
  {
    MirroredRun(hwmA, hwmB, acts);
    forall act | act in Mirrored(acts) ensures !(act.op.OpWrite? && act.op.credential) {
      var i :| 0 <= i < |acts| && Mirrored(acts)[i] == act;
      assert acts[i] in acts;
    }
    NoStalledWriter(hwmB, hwmA, Mirrored(acts));
  }

  predicate CredentialFree(v: Local) {
    && (forall m :: m in v.h.committed ==> !m.Credential())
    && (forall m :: m in v.outq.partial ==> !m.Credential())
  }

  lemma {:induction false} NoCredentials(s: seq<Msg>)
    requires forall m :: m in s ==> !m.Credential()
    ensures Credentials(s) == 0
  {
    if s != [] { NoCredentials(s[..|s| - 1]); }
  }

  lemma StepKeepsCredentialFree(s: Sys, op: Op)
    requires CredentialFree(LocalOf(s)) && !(op.OpWrite? && op.credential)
    ensures CredentialFree(LocalOf(StepA(s, op)))
  {
    var v := LocalOf(s);
    CallKeepsCredentialFree(v, op);
    ResumeKeepsCredentialFree(v);
    if s.toA != [] { ReceiveKeepsQueues(v, s.toA[0]); }
  }

  lemma ResumeKeepsCredentialFree(v: Local)
    requires CredentialFree(v)
    ensures CredentialFree(Resume(v))
  {
  }

  lemma CallKeepsCredentialFree(v: Local, op: Op)
    requires CredentialFree(v) && !(op.OpWrite? && op.credential)
    ensures CredentialFree(Call(v, op))
  {
    if !op.OpWrite? { OnlyWritesWrite(v, op); }
  }

  lemma OnlyWritesWrite(v: Local, op: Op)
    requires !op.OpWrite?
    ensures var w := Call(v, op);
            w.h.committed == v.h.committed && (w.outq.partial == v.outq.partial || w.outq.partial == [])
  {
    ReadFrame(v);
    CheckReadFrame(v);
    if IsQuiet(op) { QuietFrame(v, op); }
  }

  lemma PeerStepKeepsCredentialFree(s: Sys, op: Op)
    ensures var t := StepA(s, op); t.b == s.b && t.ba.partial == s.ba.partial
  {
    var v := LocalOf(s);
    CallKeepsInbound(v, op);
    if s.toA != [] { ReceiveKeepsQueues(v, s.toA[0]); }
    assert Resume(v).inq == v.inq;
  }

  /** A reader does not touch the unfinished message in its queue. */
  lemma CallKeepsInbound(v: Local, op: Op)
    ensures Call(v, op).inq.partial == v.inq.partial
  {
    ReadFrame(v);
    CheckReadFrame(v);
  }

  lemma {:induction false} NoCredentialsWritten(hwmA: int, hwmB: int, acts: seq<Action>)
    requires forall act :: act in acts ==> !(act.op.OpWrite? && act.op.credential)
    ensures CredentialFree(LocalOf(Reached(hwmA, hwmB, acts)))
    decreases |acts|
  {
    if acts != [] {
      var prev, act := acts[..|acts| - 1], acts[|acts| - 1];
      NoCredentialsWritten(hwmA, hwmB, prev);
      var s := Reached(hwmA, hwmB, prev);
      if act.byA {
        StepKeepsCredentialFree(s, act.op);
      } else {
        PeerStepKeepsCredentialFree(Swap(s), act.op);
      }
    }
  }

  /** One credential message is enough to stop a writer whose high watermark is one, for good. */
  lemma CredentialStallsWriter()
    ensures var s := Reached(1, 1, [Action(true, OpWrite(false, false, true, 0)),
                                    Action(true, OpFlush), Action(false, OpRead)]);
            CaughtUp(s) && s.toA == [] && s.a.c.state == Active && s.a.f.Full()
  {
    var w, f, r := Action(true, OpWrite(false, false, true, 0)), Action(true, OpFlush), Action(false, OpRead);
    var s0 := Pipepair(1, 1);
    assert [w, f, r][..2] == [w, f] && [w, f][..1] == [w] && [w][..0] == [];
    assert Run(s0, [w]) == Step(s0, w);
    assert Run(s0, [w, f]) == Step(Step(s0, w), f);
    assert Run(s0, [w, f, r]) == Step(Step(Step(s0, w), f), r);
    var m := Frame(false, false, true, 0);
    var s2 := CredentialPublished(s0, w, f, m);
    CredentialSkipped(s2, m);
  }

  lemma CredentialSkipped(s: Sys, m: Msg)
    requires s.b == Pipepair(1, 1).b && s.ab == Queue([], [m], [], [], false) && s.toA == [] && m.Credential()
    ensures var t := Step(s, Action(false, OpRead)); CaughtUp(t) && t.toA == [] && t.a == s.a
  {
    assert SkipCredentials(s.ab) == Queue([m], [], [], [], false);
    assert LocalOf(Swap(s)).inq == s.ab;
    assert Read(LocalOf(Swap(s))) == FallAsleep(LocalOf(Swap(s)), SkipCredentials(s.ab));
  }

  lemma CredentialPublished(s0: Sys, w: Action, f: Action, m: Msg) returns (s2: Sys)
    requires s0 == Pipepair(1, 1) && w == Action(true, OpWrite(false, false, true, 0)) && f == Action(true, OpFlush)
    requires m == Frame(false, false, true, 0)
    ensures s2 == Step(Step(s0, w), f)
    ensures s2.ab == Queue([], [m], [], [], false) && s2.toA == [] && s2.toB == [] && s2.b == s0.b
    ensures s2.a.c == s0.a.c && s2.a.f.msgsWritten == 1 && s2.a.f.hwm == 1 && s2.a.f.peersMsgsRead == 0
  {
    s2 := Step(Step(s0, w), f);
  }
}
