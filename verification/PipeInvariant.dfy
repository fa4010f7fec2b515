/** What every step of either endpoint keeps, in every interleaving. */
module PipeInvariant {
  import opened Queues
  import opened PipeProtocol

  // ---------------------------------------------------------------- command channels

  function Terms(ch: seq<Command>): nat { multiset(ch)[PipeTerm] }

  function Acks(ch: seq<Command>): nat { multiset(ch)[PipeTermAck] }

  /** The writer's view of the reader's progress once every command in flight has arrived. */
  function LastReport(known: nat, ch: seq<Command>): nat {
    if ch == [] then known
    else
      var last := ch[|ch| - 1];
      if last.ActivateWrite? then last.msgsRead else LastReport(known, ch[..|ch| - 1])
  }

  lemma Append(ch: seq<Command>, c: Command, known: nat)
    ensures LastReport(known, ch + [c]) == if c.ActivateWrite? then c.msgsRead else LastReport(known, ch)
  {
    assert (ch + [c])[..|ch + [c]| - 1] == ch;
  }

  lemma {:induction false} Receive(ch: seq<Command>, known: nat)
    requires ch != []
    ensures multiset(ch) == multiset{ch[0]} + multiset(ch[1..])
    ensures LastReport(known, ch)
         == LastReport(if ch[0].ActivateWrite? then ch[0].msgsRead else known, ch[1..])
  {
    assert ch == [ch[0]] + ch[1..];
    if |ch| == 1 {
      assert ch[..0] == [] && ch[1..] == [];
    } else {
      var front := ch[..|ch| - 1];
      Receive(front, known);
      assert ch[1..][..|ch[1..]| - 1] == front[1..];
    }
  }

  // ---------------------------------------------------------------- counting and filtering frames

  /** Messages that count against the high watermark. */
  function Counted(s: seq<Msg>): nat {
    if s == [] then 0 else Counted(s[..|s| - 1]) + (if s[|s| - 1].Counted() then 1 else 0)
  }

  /** What a reader gets to see of a log: no credentials and no delimiters. */
  function Payload(s: seq<Msg>): seq<Msg> {
    if s == [] then []
    else
      var last := s[|s| - 1];
      Payload(s[..|s| - 1]) + (if last.Delimiter? || last.Credential() then [] else [last])
  }

  lemma CountedAppend(s: seq<Msg>, m: Msg)
    ensures Counted(s + [m]) == Counted(s) + (if m.Counted() then 1 else 0)
  {
    assert (s + [m])[..|s + [m]| - 1] == s;
  }

  lemma PayloadAppend(s: seq<Msg>, m: Msg)
    ensures Payload(s + [m]) == Payload(s) + (if m.Delimiter? || m.Credential() then [] else [m])
  {
    assert (s + [m])[..|s + [m]| - 1] == s;
  }

  lemma {:induction false} CountedConcat(s: seq<Msg>, t: seq<Msg>)
    ensures Counted(s + t) == Counted(s) + Counted(t)
  {
    if t == [] {
      assert s + t == s;
    } else {
      var front, m := t[..|t| - 1], t[|t| - 1];
      CountedConcat(s, front);
      assert t == front + [m] && s + t == s + front + [m];
      CountedAppend(s + front, m);
      CountedAppend(front, m);
    }
  }

  lemma {:induction false} PayloadConcat(s: seq<Msg>, t: seq<Msg>)
    ensures Payload(s + t) == Payload(s) + Payload(t)
  {
    if t == [] {
      assert s + t == s;
    } else {
      var front, m := t[..|t| - 1], t[|t| - 1];
      PayloadConcat(s, front);
      assert t == front + [m] && s + t == s + front + [m];
      PayloadAppend(s + front, m);
      PayloadAppend(front, m);
    }
  }

  lemma {:induction false} NothingCounted(s: seq<Msg>)
    requires forall m :: m in s ==> !m.Counted()
    ensures Counted(s) == 0
  {
    if s != [] { NothingCounted(s[..|s| - 1]); }
  }

  /** Skipping credentials hides nothing from the user. */
  lemma {:induction false} SkipCredentialsKeepsPayload(q: Queue<Msg>)
    ensures Payload(SkipCredentials(q).got) == Payload(q.got)
    decreases |q.published|
  {
    if q.published != [] && q.published[0].Credential() {
      PayloadAppend(q.got, q.published[0]);
      SkipCredentialsKeepsPayload(Pop(q));
    }
  }

  // ---------------------------------------------------------------- what a call leaves alone

  /** The outbound side and the unfinished inbound message are as before. */
  predicate OnlyRead(v: Local, w: Local) {
    && w.outq == v.outq && w.h.committed == v.h.committed && w.inq.partial == v.inq.partial
    && w.f.hwm == v.f.hwm && w.f.outActive == v.f.outActive
  }

  lemma DelimiterFrame(v: Local, q: Queue<Msg>)
    requires q.published != [] && q.partial == v.inq.partial
    ensures OnlyRead(v, TakeDelimiter(v, q))
  {
  }

  lemma ReadFrame(v: Local)
    ensures OnlyRead(v, Read(v))
  {
    var q := SkipCredentials(v.inq);
    if q.published != [] { DelimiterFrame(v, q); }
  }

  lemma CheckReadFrame(v: Local)
    ensures OnlyRead(v, CheckRead(v))
  {
    if v.inq.published != [] { DelimiterFrame(v, v.inq); }
  }

  predicate IsQuiet(op: Op) {
    op.OpCheckWrite? || op.OpRollback? || op.OpTerminate? || op.OpSetNodelay? || op == OpReceive || op == OpResume
  }

  /** These calls complete, publish and take nothing. */
  lemma QuietFrame(v: Local, op: Op)
    requires IsQuiet(op)
    ensures var w := Call(v, op);
            && w.inq == v.inq && (w.outq == v.outq || w.outq == UnwriteAll(v.outq)) && w.h == v.h
            && w.f.hwm == v.f.hwm && w.f.inActive == v.f.inActive
  {
    if op.OpTerminate? { TerminateFrame(v, op.delay); }
  }

  lemma TerminateFrame(v: Local, delay: bool)
    ensures var w := Terminate(v, delay);
            && w.inq == v.inq && (w.outq == v.outq || w.outq == UnwriteAll(v.outq)) && w.h == v.h
            && w.f.hwm == v.f.hwm && w.f.inActive == v.f.inActive
  {
  }

  // ---------------------------------------------------------------- the handshake

  predicate StateMatchesCounts(c: Control) {
    if !c.alive then c.ackSent == 1 && c.ackGot == 1 && c.termSent <= 1 && c.termGot <= 1 && c.pc == Idle
    else
      && c.ackGot == 0
      && match c.state
         case Active => c.termSent == 0 && c.ackSent == 0 && c.termGot == 0
         case DelimiterReceived => c.termSent == 0 && c.ackSent == 0 && c.termGot == 0
         case WaitingForDelimiter => c.termSent == 0 && c.ackSent == 0 && c.termGot == 1
         case TermAckSent => c.termSent == 0 && c.ackSent == 1 && c.termGot == 1
         case TermReqSent1 => c.termSent == 1 && c.ackSent == 0 && c.termGot == 0
         case TermReqSent2 => c.termSent == 1 && c.ackSent == 1 && c.termGot == 1
  }

  /** `c` and what it has in flight to its peer `p`. */
  predicate Handshake(c: Control, p: Control, ch: seq<Command>) {
    && StateMatchesCounts(c)
    && c.termSent == p.termGot + Terms(ch)
    && c.ackSent == p.ackGot + Acks(ch)
    && (Acks(ch) > 0 ==> ch[|ch| - 1] == PipeTermAck)
    && (p.ackGot > 0 ==> ch == [])
    && (c.ackSent > 0 ==> c.termGot > 0 || c.ackGot > 0)
    && c.outPipe == (c.ackSent == 0)
    && (c.pc == OwesDelimiter ==> c.outPipe && (c.state == TermReqSent1 || c.state == WaitingForDelimiter))
    && (c.pc == OwesWakeup ==> c.outPipe)
  }

  /** The handshake seen from one endpoint: `inbox` holds what its peer `p` has in flight to it. */
  predicate HandshakeOf(v: Local, p: Control, inbox: seq<Command>) {
    && v.ok && v.peerAlive == p.alive
    && Handshake(v.c, p, v.sent)
    && Handshake(p, v.c, inbox)
  }

  predicate PartialIsMore(q: Queue<Msg>) {
    forall m :: m in q.partial ==> m.More()
  }

  lemma TakeFrameKeepsHandshake(v: Local, p: Control, inbox: seq<Command>, q: Queue<Msg>)
    requires HandshakeOf(v, p, inbox) && v.c.alive && v.c.Readable() && q.published != []
    ensures HandshakeOf(TakeFrame(v, q), p, inbox)
  {
  }

  lemma TakeDelimiterKeepsHandshake(v: Local, p: Control, inbox: seq<Command>, q: Queue<Msg>)
    requires HandshakeOf(v, p, inbox) && v.c.alive && v.c.pc == Idle && v.c.Readable() && q.published != []
    ensures HandshakeOf(TakeDelimiter(v, q), p, inbox)
  {
  }

  lemma ReadKeepsHandshake(v: Local, p: Control, inbox: seq<Command>)
    requires HandshakeOf(v, p, inbox) && v.c.alive && v.c.pc == Idle
    ensures HandshakeOf(Read(v), p, inbox)
  {
    var q := SkipCredentials(v.inq);
    if v.c.Readable() && q.published != [] {
      TakeFrameKeepsHandshake(v, p, inbox, q);
      TakeDelimiterKeepsHandshake(v, p, inbox, q);
    }
  }

  lemma CheckReadKeepsHandshake(v: Local, p: Control, inbox: seq<Command>)
    requires HandshakeOf(v, p, inbox) && v.c.alive && v.c.pc == Idle
    ensures HandshakeOf(CheckRead(v), p, inbox)
  {
    if v.c.Readable() && v.inq.published != [] { TakeDelimiterKeepsHandshake(v, p, inbox, v.inq); }
  }

  lemma WriteKeepsHandshake(v: Local, p: Control, inbox: seq<Command>, m: Msg)
    requires HandshakeOf(v, p, inbox) && v.c.alive && v.c.pc == Idle
    ensures HandshakeOf(WriteFrame(v, m), p, inbox)
    ensures HandshakeOf(CheckWrite(v), p, inbox)
    ensures HandshakeOf(v.(c := v.c.(delay := false)), p, inbox)
  {
  }

  lemma RollbackKeepsHandshake(v: Local, p: Control, inbox: seq<Command>)
    requires HandshakeOf(v, p, inbox) && v.c.alive && PartialIsMore(v.outq)
    ensures HandshakeOf(Rollback(v), p, inbox)
  {
  }

  lemma FlushKeepsHandshake(v: Local, p: Control, inbox: seq<Command>)
    requires HandshakeOf(v, p, inbox) && v.c.alive && v.c.pc == Idle
    ensures HandshakeOf(FlushQueue(v), p, inbox)
  {
  }

  /** `terminate` sends a request. */
  lemma RequestKeepsHandshake(v: Local, p: Control, inbox: seq<Command>, delay: bool)
    requires HandshakeOf(v, p, inbox) && v.c.alive && v.c.pc == Idle
    requires v.c.state == Active || v.c.state == DelimiterReceived
    ensures HandshakeOf(Terminate(v, delay), p, inbox)
  {
  }

  lemma TerminateKeepsHandshake(v: Local, p: Control, inbox: seq<Command>, delay: bool)
    requires HandshakeOf(v, p, inbox) && v.c.alive && v.c.pc == Idle && PartialIsMore(v.outq)
    ensures HandshakeOf(Terminate(v, delay), p, inbox)
  {
    if v.c.state == Active || v.c.state == DelimiterReceived {
      RequestKeepsHandshake(v, p, inbox, delay);
    }
  }

  lemma ResumeKeepsHandshake(v: Local, p: Control, inbox: seq<Command>)
    requires HandshakeOf(v, p, inbox) && v.c.alive && PartialIsMore(v.outq)
    ensures HandshakeOf(Resume(v), p, inbox)
  {
    if v.c.pc == OwesDelimiter { DelimiterKeepsHandshake(v, p, inbox); }
  }

  lemma DelimiterKeepsHandshake(v: Local, p: Control, inbox: seq<Command>)
    requires HandshakeOf(v, p, inbox) && v.c.alive && v.c.pc == OwesDelimiter && PartialIsMore(v.outq)
    ensures HandshakeOf(WriteDelimiter(v), p, inbox)
  {
  }

  lemma TermKeepsHandshake(v: Local, p: Control, inbox: seq<Command>)
    requires HandshakeOf(v, p, inbox) && v.c.alive && v.c.pc == Idle && inbox != [] && inbox[0] == PipeTerm
    ensures HandshakeOf(ProcessPipeTerm(v), p, inbox[1..])
  {
    Receive(inbox, 0);
  }

  lemma AckKeepsHandshake(v: Local, p: Control, inbox: seq<Command>)
    requires HandshakeOf(v, p, inbox) && v.c.alive && v.c.pc == Idle && inbox != [] && inbox[0] == PipeTermAck
    ensures HandshakeOf(ProcessPipeTermAck(v), p, inbox[1..])
  {
    Receive(inbox, 0);
  }

  lemma ReceiveKeepsHandshake(v: Local, p: Control, inbox: seq<Command>)
    requires HandshakeOf(v, p, inbox) && v.c.alive && v.c.pc == Idle && inbox != []
    ensures HandshakeOf(ProcessCommand(v, inbox[0]), p, inbox[1..])
  {
    if inbox[0] == PipeTerm {
      TermKeepsHandshake(v, p, inbox);
    } else if inbox[0] == PipeTermAck {
      AckKeepsHandshake(v, p, inbox);
    } else {
      Receive(inbox, 0);
    }
  }

  // ---------------------------------------------------------------- watermarks

  /**
   `w` writes in state `state`, `r` reads and reports its progress over `ch`.
   */
  predicate Watermarks(w: Flow, state: State, committed: seq<Msg>, r: Flow, delivered: seq<Msg>, ch: seq<Command>) {
    && r.lwm == ComputeLwm(w.hwm)
    && w.msgsWritten == Counted(committed)
    && r.msgsRead == Counted(delivered)
    && w.peersMsgsRead <= r.msgsRead
    && (forall c :: c in ch && c.ActivateWrite? ==> c.msgsRead <= r.msgsRead)
    && LastReport(w.peersMsgsRead, ch) == (if r.lwm > 0 then r.msgsRead - r.msgsRead % r.lwm else 0)
    && (w.hwm > 0 ==> w.msgsWritten <= r.msgsRead + w.hwm)
    && (state == Active && !w.outActive ==> w.Full())
  }

  /** Both directions, seen from one endpoint. */
  predicate FlowOf(v: Local, p: Endpoint, inbox: seq<Command>) {
    && Watermarks(v.f, v.c.state, v.h.committed, p.f, p.h.delivered, inbox)
    && Watermarks(p.f, p.c.state, p.h.committed, v.f, v.h.delivered, v.sent)
  }

  lemma NextRemainder(n: nat, d: nat)
    requires d > 0 && (n + 1) % d != 0
    ensures (n + 1) % d == n % d + 1
  {
    var q, r := n / d, n % d;
    if r + 1 == d {
      RemainderIs(n + 1, d, q + 1, 0);
    } else {
      RemainderIs(n + 1, d, q, r + 1);
    }
  }

  lemma RemainderIs(n: nat, d: nat, q: nat, r: nat)
    requires 0 <= r < d && n == d * q + r
    ensures n % d == r
  {
    var q', r' := n / d, n % d;
    if q < q' { AtLeastOnce(d, q' - q); }
    if q' < q { AtLeastOnce(d, q - q'); }
  }

  lemma AtLeastOnce(d: nat, k: nat)
    requires k > 0
    ensures d * k >= d
  {
    assert d * k == d + d * (k - 1);
  }

  /** Commands other than progress reports do not matter for the watermarks. */
  lemma SendingKeepsWatermarks(w: Flow, state: State, committed: seq<Msg>, r: Flow, delivered: seq<Msg>,
                               ch: seq<Command>, c: Command)
    requires Watermarks(w, state, committed, r, delivered, ch) && !c.ActivateWrite?
    ensures Watermarks(w, state, committed, r, delivered, ch + [c])
  {
    Append(ch, c, w.peersMsgsRead);
  }

  lemma ReportKeepsWatermarks(w: Flow, state: State, committed: seq<Msg>, r: Flow, delivered: seq<Msg>,
                              ch: seq<Command>, m: Msg)
    requires Watermarks(w, state, committed, r, delivered, ch)
    ensures var n := r.msgsRead + (if m.Counted() then 1 else 0);
            var ch' := if r.lwm > 0 && n % r.lwm == 0 then ch + [ActivateWrite(n)] else ch;
            Watermarks(w, state, committed, r.(msgsRead := n), delivered + [m], ch')
  {
    CountedAppend(delivered, m);
    var n := r.msgsRead + (if m.Counted() then 1 else 0);
    if r.lwm > 0 {
      if n % r.lwm == 0 {
        Append(ch, ActivateWrite(n), w.peersMsgsRead);
      } else if m.Counted() {
        NextRemainder(r.msgsRead, r.lwm);
      }
    }
  }

  lemma ReceivingKeepsWatermarks(w: Flow, state: State, committed: seq<Msg>, r: Flow, delivered: seq<Msg>,
                                 ch: seq<Command>)
    requires Watermarks(w, state, committed, r, delivered, ch) && ch != []
    ensures ch[0].ActivateWrite? ==>
              Watermarks(w.(peersMsgsRead := ch[0].msgsRead, outActive := w.outActive || state == Active),
                         state, committed, r, delivered, ch[1..])
    ensures !ch[0].ActivateWrite? ==> Watermarks(w, state, committed, r, delivered, ch[1..])
  {
    Receive(ch, w.peersMsgsRead);
    assert forall c :: c in ch[1..] ==> c in ch;
  }

  /** A step that reads and writes no message: it may leave the active state and send one command. */
  lemma QuietStepKeepsFlow(v: Local, w: Local, p: Endpoint, inbox: seq<Command>, c: Command)
    requires FlowOf(v, p, inbox) && !c.ActivateWrite?
    requires w.h.committed == v.h.committed && w.h.delivered == v.h.delivered
    requires w.f == v.f || w.f == v.f.(inActive := w.f.inActive) || w.f == v.f.(outActive := false)
    requires w.c.state != Active || (w.c.state == v.c.state && w.f.outActive == v.f.outActive)
    requires w.sent == v.sent || w.sent == v.sent + [c]
    ensures FlowOf(w, p, inbox)
  {
    SendingKeepsWatermarks(p.f, p.c.state, p.h.committed, v.f, v.h.delivered, v.sent, c);
  }

  lemma TakeFrameKeepsFlow(v: Local, p: Endpoint, inbox: seq<Command>, q: Queue<Msg>)
    requires FlowOf(v, p, inbox) && q.published != []
    ensures FlowOf(TakeFrame(v, q), p, inbox)
  {
    ReportKeepsWatermarks(p.f, p.c.state, p.h.committed, v.f, v.h.delivered, v.sent, q.published[0]);
  }

  lemma TakeDelimiterKeepsFlow(v: Local, p: Endpoint, inbox: seq<Command>, q: Queue<Msg>)
    requires FlowOf(v, p, inbox) && q.published != []
    ensures FlowOf(TakeDelimiter(v, q), p, inbox)
  {
    QuietStepKeepsFlow(v, TakeDelimiter(v, q), p, inbox, PipeTermAck);
  }

  lemma ReadKeepsFlow(v: Local, p: Endpoint, inbox: seq<Command>)
    requires FlowOf(v, p, inbox)
    ensures FlowOf(Read(v), p, inbox)
    ensures FlowOf(CheckRead(v), p, inbox)
  {
    var q := SkipCredentials(v.inq);
    if q.published != [] {
      TakeDelimiterKeepsFlow(v, p, inbox, q);
      TakeFrameKeepsFlow(v, p, inbox, q);
    }
    if v.inq.published != [] {
      TakeDelimiterKeepsFlow(v, p, inbox, v.inq);
    }
  }

  lemma CheckWriteKeepsFlow(v: Local, p: Endpoint, inbox: seq<Command>)
    requires FlowOf(v, p, inbox)
    ensures FlowOf(CheckWrite(v), p, inbox)
  {
  }

  /** One message more was completed. */
  lemma WritingKeepsWatermarks(w: Flow, committed: seq<Msg>, r: Flow, delivered: seq<Msg>, ch: seq<Command>,
                               partial: seq<Msg>, m: Msg)
    requires Watermarks(w, Active, committed, r, delivered, ch) && w.outActive && !w.Full()
    requires (forall x :: x in partial ==> x.More()) && !m.More()
    ensures Watermarks(w.(msgsWritten := w.msgsWritten + (if m.Counted() then 1 else 0)), Active,
                       committed + partial + [m], r, delivered, ch)
  {
    CommitCounts(committed, partial, m);
  }

  lemma WriteKeepsFlow(v: Local, p: Endpoint, inbox: seq<Command>, m: Msg)
    requires FlowOf(v, p, inbox) && PartialIsMore(v.outq)
    ensures FlowOf(WriteFrame(v, m), p, inbox)
  {
    if !CanWrite(v) {
      CheckWriteKeepsFlow(v, p, inbox);
    } else if !m.More() {
      WritingKeepsWatermarks(v.f, v.h.committed, p.f, p.h.delivered, inbox, v.outq.partial, m);
    }
  }

  lemma CommitCounts(committed: seq<Msg>, partial: seq<Msg>, m: Msg)
    requires forall x :: x in partial ==> x.More()
    ensures Counted(committed + partial + [m]) == Counted(committed) + (if m.Counted() then 1 else 0)
  {
    CountedConcat(committed, partial);
    NothingCounted(partial);
    CountedAppend(committed + partial, m);
  }

  lemma TerminateKeepsFlow(v: Local, p: Endpoint, inbox: seq<Command>, delay: bool)
    requires FlowOf(v, p, inbox)
    ensures FlowOf(Terminate(v, delay), p, inbox)
  {
    QuietStepKeepsFlow(v, Terminate(v, delay), p, inbox,
                       if v.c.state == WaitingForDelimiter then PipeTermAck else PipeTerm);
  }

  lemma DelimiterKeepsFlow(v: Local, p: Endpoint, inbox: seq<Command>)
    requires FlowOf(v, p, inbox)
    ensures FlowOf(WriteDelimiter(v), p, inbox)
  {
    CountedAppend(v.h.committed, Delimiter);
    var w := WriteDelimiter(v);
    assert w.f == v.f && w.c.state == v.c.state && w.sent == v.sent && w.h.delivered == v.h.delivered;
    assert w.h.committed == v.h.committed + [Delimiter];
  }

  lemma ResumeKeepsFlow(v: Local, p: Endpoint, inbox: seq<Command>)
    requires FlowOf(v, p, inbox)
    ensures FlowOf(Resume(v), p, inbox)
  {
    match v.c.pc
    case Idle =>
    case OwesDelimiter => DelimiterKeepsFlow(v, p, inbox);
    case OwesWakeup => QuietStepKeepsFlow(v, Wakeup(v), p, inbox, ActivateRead);
  }

  lemma ReportArrivalKeepsFlow(v: Local, p: Endpoint, inbox: seq<Command>)
    requires FlowOf(v, p, inbox) && inbox != [] && inbox[0].ActivateWrite?
    ensures FlowOf(ProcessCommand(v, inbox[0]), p, inbox[1..])
  {
    ReceivingKeepsWatermarks(v.f, v.c.state, v.h.committed, p.f, p.h.delivered, inbox);
  }

  lemma TermArrivalKeepsFlow(v: Local, p: Endpoint, inbox: seq<Command>)
    requires FlowOf(v, p, inbox)
    ensures FlowOf(ProcessPipeTerm(v), p, inbox)
  {
    TermFrame(v);
    QuietStepKeepsFlow(v, ProcessPipeTerm(v), p, inbox, PipeTermAck);
  }

  lemma TermFrame(v: Local)
    ensures var w := ProcessPipeTerm(v);
            && w.h == v.h && w.f == v.f && (w.c.state == Active ==> v.c.state == Active)
            && (w.sent == v.sent || w.sent == v.sent + [PipeTermAck])
  {
  }

  lemma AckArrivalKeepsFlow(v: Local, p: Endpoint, inbox: seq<Command>)
    requires FlowOf(v, p, inbox)
    ensures FlowOf(ProcessPipeTermAck(v), p, inbox)
  {
    QuietStepKeepsFlow(v, ProcessPipeTermAck(v), p, inbox, PipeTermAck);
  }

  lemma ReceiveKeepsFlow(v: Local, p: Endpoint, inbox: seq<Command>)
    requires FlowOf(v, p, inbox) && inbox != []
    ensures FlowOf(ProcessCommand(v, inbox[0]), p, inbox[1..])
  {
    if inbox[0].ActivateWrite? {
      ReportArrivalKeepsFlow(v, p, inbox);
    } else {
      ReceivingKeepsWatermarks(v.f, v.c.state, v.h.committed, p.f, p.h.delivered, inbox);
      assert FlowOf(v, p, inbox[1..]);
      TermArrivalKeepsFlow(v, p, inbox[1..]);
      AckArrivalKeepsFlow(v, p, inbox[1..]);
    }
  }

  // ---------------------------------------------------------------- delivery

  predicate Clean(s: seq<Msg>) {
    Delimiter !in s
  }

  /** Only delimiters follow a delimiter. */
  predicate DelimitersLast(s: seq<Msg>) {
    forall i, j :: 0 <= i < j < |s| && s[i].Delimiter? ==> s[j].Delimiter?
  }

  /** No message is cut short. */
  predicate WholeMessages(s: seq<Msg>) {
    s != [] ==> !s[|s| - 1].More()
  }

  /** What the writer completed, what the reader got, and what is in the queue between them. */
  predicate Contents(committed: seq<Msg>, delivered: seq<Msg>, q: Queue<Msg>) {
    && committed == q.Log()
    && delivered == Payload(q.got)
    && PartialIsMore(q)
    && WholeMessages(q.got + q.published)
    && WholeMessages(committed)
    && DelimitersLast(committed)
    && Clean(q.complete)
  }

  /** When `w` writes a delimiter and when `r` may have taken it. */
  predicate Delimiters(w: Control, committed: seq<Msg>, r: Control, saw: bool, got: seq<Msg>, ch: seq<Command>) {
    && (w.alive && (w.state == Active || w.state == DelimiterReceived) ==> Clean(committed))
    && (w.termSent > 0 ==> w.pc == OwesDelimiter || !Clean(committed))
    && (!Clean(committed) || w.pc == OwesDelimiter ==> w.termSent > 0 || w.termGot > 0)
    && saw == !Clean(got)
    && (r.alive && r.Readable() ==> !saw)
    && (r.alive && r.state == DelimiterReceived ==> saw && Terms(ch) > 0)
  }

  function WakeupsOwed(pc: Pc, ch: seq<Command>): nat {
    multiset(ch)[ActivateRead] + if pc == OwesWakeup then 1 else 0
  }

  /** A reader that went to sleep is woken, by exactly one command. */
  predicate Wakeups(pc: Pc, r: Control, inActive: bool, q: Queue<Msg>, ch: seq<Command>) {
    && q.Valid()
    && (r.alive && q.asleep ==> !inActive)
    && (r.alive && WakeupsOwed(pc, ch) > 0 ==> !inActive && !q.asleep)
    && WakeupsOwed(pc, ch) <= 1
    && (r.alive && r.Readable() && !inActive ==> q.asleep || WakeupsOwed(pc, ch) > 0)
  }

  predicate ContentsOf(v: Local, p: Endpoint) {
    && Contents(v.h.committed, p.h.delivered, v.outq)
    && Contents(p.h.committed, v.h.delivered, v.inq)
  }

  predicate DelimitersOf(v: Local, p: Endpoint, inbox: seq<Command>) {
    && Delimiters(v.c, v.h.committed, p.c, p.h.sawDelimiter, v.outq.got, v.sent)
    && Delimiters(p.c, p.h.committed, v.c, v.h.sawDelimiter, v.inq.got, inbox)
  }

  predicate WakeupsOf(v: Local, p: Endpoint, inbox: seq<Command>) {
    && Wakeups(v.c.pc, p.c, p.f.inActive, v.outq, v.sent)
    && Wakeups(p.c.pc, v.c, v.f.inActive, v.inq, inbox)
  }

  // contents

  lemma TakeKeepsContents(committed: seq<Msg>, delivered: seq<Msg>, q: Queue<Msg>)
    requires Contents(committed, delivered, q) && q.published != []
    ensures var m := q.published[0];
            Contents(committed, if m.Delimiter? || m.Credential() then delivered else delivered + [m], Pop(q))
  {
    PayloadAppend(q.got, q.published[0]);
    assert Pop(q).got + Pop(q).published == q.got + q.published;
  }

  lemma SkipKeepsContents(committed: seq<Msg>, delivered: seq<Msg>, q: Queue<Msg>)
    requires Contents(committed, delivered, q)
    ensures Contents(committed, delivered, SkipCredentials(q))
  {
    SkipCredentialsKeepsPayload(q);
  }

  lemma CleanHasNoDelimiter(s: seq<Msg>)
    requires Clean(s)
    ensures DelimitersLast(s)
  {
    assert forall i :: 0 <= i < |s| ==> s[i] in s;
  }

  lemma WriteKeepsContents(committed: seq<Msg>, delivered: seq<Msg>, q: Queue<Msg>, m: Msg)
    requires Contents(committed, delivered, q) && Clean(committed) && m.Frame?
    ensures Contents(if m.More() then committed else committed + q.partial + [m], delivered, Write(q, m, m.More()))
  {
    if !m.More() {
      assert Write(q, m, false).Log() == committed + q.partial + [m];
      assert forall x :: x in committed + q.partial + [m] ==> x.Frame?;
      CleanHasNoDelimiter(committed + q.partial + [m]);
    }
  }

  lemma FlushKeepsContents(committed: seq<Msg>, delivered: seq<Msg>, q: Queue<Msg>)
    requires Contents(committed, delivered, q)
    ensures Contents(committed, delivered, Flush(q))
  {
    assert Flush(q).Log() == q.Log();
  }

  lemma DelimiterKeepsContents(committed: seq<Msg>, delivered: seq<Msg>, q: Queue<Msg>)
    requires Contents(committed, delivered, q)
    ensures Contents(committed + [Delimiter], delivered, Flush(Write(UnwriteAll(q), Delimiter, false)))
  {
    var r := Flush(Write(UnwriteAll(q), Delimiter, false));
    assert r.got + r.published == committed + [Delimiter];
  }

  lemma TakeFrameKeepsContents(v: Local, p: Endpoint, q: Queue<Msg>)
    requires ContentsOf(v.(inq := q), p) && q.published != []
    requires q.published[0].Frame? && !q.published[0].Credential()
    ensures ContentsOf(TakeFrame(v, q), p)
  {
    TakeKeepsContents(p.h.committed, v.h.delivered, q);
  }

  lemma TakeDelimiterKeepsContents(v: Local, p: Endpoint, q: Queue<Msg>)
    requires ContentsOf(v.(inq := q), p) && q.published != [] && q.published[0].Delimiter?
    ensures ContentsOf(TakeDelimiter(v, q), p)
  {
    TakeKeepsContents(p.h.committed, v.h.delivered, q);
    var w := TakeDelimiter(v, q);
    assert w.inq == Pop(q) && w.outq == v.outq;
  }

  lemma FallAsleepKeepsContents(v: Local, p: Endpoint, q: Queue<Msg>)
    requires ContentsOf(v.(inq := q), p)
    ensures ContentsOf(FallAsleep(v, q), p)
  {
  }

  lemma ReadKeepsContents(v: Local, p: Endpoint)
    requires ContentsOf(v, p)
    ensures ContentsOf(Read(v), p)
  {
    SkipKeepsContents(p.h.committed, v.h.delivered, v.inq);
    var q := SkipCredentials(v.inq);
    FallAsleepKeepsContents(v, p, q);
    if q.published == [] {
    } else if q.published[0].Delimiter? {
      TakeDelimiterKeepsContents(v, p, q);
    } else {
      TakeFrameKeepsContents(v, p, q);
    }
  }

  lemma CheckReadKeepsContents(v: Local, p: Endpoint)
    requires ContentsOf(v, p)
    ensures ContentsOf(CheckRead(v), p)
  {
    FallAsleepKeepsContents(v, p, v.inq);
    if v.inq.published != [] && v.inq.published[0].Delimiter? {
      TakeDelimiterKeepsContents(v, p, v.inq);
    }
  }

  lemma CallKeepsContents(v: Local, p: Endpoint, op: Op)
    requires ContentsOf(v, p)
    requires v.c.state == Active ==> Clean(v.h.committed)
    ensures ContentsOf(Call(v, op), p)
  {
    match op
    case OpRead => ReadKeepsContents(v, p);
    case OpCheckRead => CheckReadKeepsContents(v, p);
    case OpWrite(more, routingId, credential, body) =>
      if CanWrite(v) {
        WriteKeepsContents(v.h.committed, p.h.delivered, v.outq, Frame(more, routingId, credential, body));
      }
    case OpFlush => FlushKeepsContents(v.h.committed, p.h.delivered, v.outq);
    case _ => QuietKeepsContents(v, p, op);
  }

  lemma QuietKeepsContents(v: Local, p: Endpoint, op: Op)
    requires ContentsOf(v, p) && IsQuiet(op)
    ensures ContentsOf(Call(v, op), p)
  {
    QuietFrame(v, op);
  }

  lemma ResumeKeepsContents(v: Local, p: Endpoint)
    requires ContentsOf(v, p)
    requires v.c.pc == OwesDelimiter ==> v.c.outPipe && v.c.state != TermAckSent
    ensures ContentsOf(Resume(v), p)
  {
    DelimiterKeepsContents(v.h.committed, p.h.delivered, v.outq);
  }

  lemma ReceiveKeepsContents(v: Local, p: Endpoint, c: Command)
    requires ContentsOf(v, p)
    ensures ContentsOf(ProcessCommand(v, c), p)
  {
    ReceiveKeepsQueues(v, c);
  }

  lemma ReceiveKeepsQueues(v: Local, c: Command)
    ensures var u := ProcessCommand(v, c); u.h == v.h && u.inq == v.inq && u.outq == v.outq
  {
  }

  // delimiters

  lemma SkipKeepsClean(q: Queue<Msg>)
    ensures Clean(SkipCredentials(q).got) == Clean(q.got)
    decreases |q.published|
  {
    if q.published != [] && q.published[0].Credential() { SkipKeepsClean(Pop(q)); }
  }

  lemma TakeDelimiterKeepsDelimiters(v: Local, p: Endpoint, inbox: seq<Command>, q: Queue<Msg>)
    requires HandshakeOf(v, p.c, inbox) && DelimitersOf(v, p, inbox)
    requires v.c.alive && v.c.pc == Idle && v.c.Readable()
    requires q.published != [] && q.published[0].Delimiter? && !Clean(p.h.committed)
    ensures DelimitersOf(TakeDelimiter(v, q), p, inbox)
  {
  }

  lemma ReadKeepsDelimiters(v: Local, p: Endpoint, inbox: seq<Command>)
    requires HandshakeOf(v, p.c, inbox) && DelimitersOf(v, p, inbox) && p.h.committed == v.inq.Log()
    requires v.c.alive && v.c.pc == Idle
    ensures DelimitersOf(Read(v), p, inbox)
  {
    SkipKeepsClean(v.inq);
    var q := SkipCredentials(v.inq);
    if v.f.inActive && v.c.Readable() && q.published != [] && q.published[0].Delimiter? {
      assert q.published[0] in q.got + q.published;
      TakeDelimiterKeepsDelimiters(v, p, inbox, q);
    }
  }

  lemma CheckReadKeepsDelimiters(v: Local, p: Endpoint, inbox: seq<Command>)
    requires HandshakeOf(v, p.c, inbox) && DelimitersOf(v, p, inbox) && p.h.committed == v.inq.Log()
    requires v.c.alive && v.c.pc == Idle
    ensures DelimitersOf(CheckRead(v), p, inbox)
  {
    var q := v.inq;
    if v.f.inActive && v.c.Readable() && q.published != [] && q.published[0].Delimiter? {
      assert q.published[0] in q.Log();
      TakeDelimiterKeepsDelimiters(v, p, inbox, q);
    }
  }

  lemma WriteKeepsDelimiters(v: Local, p: Endpoint, inbox: seq<Command>, m: Msg)
    requires DelimitersOf(v, p, inbox) && PartialIsMore(v.outq) && m.Frame?
    ensures DelimitersOf(WriteFrame(v, m), p, inbox)
  {
    assert Clean(v.outq.partial + [m]);
    assert Clean(v.h.committed + v.outq.partial + [m]) == Clean(v.h.committed);
  }

  lemma TerminateKeepsDelimiters(v: Local, p: Endpoint, inbox: seq<Command>, delay: bool)
    requires HandshakeOf(v, p.c, inbox) && DelimitersOf(v, p, inbox)
    requires v.c.alive && v.c.pc == Idle
    ensures DelimitersOf(Terminate(v, delay), p, inbox)
  {
  }

  lemma WriteDelimiterKeepsDelimiters(v: Local, p: Endpoint, inbox: seq<Command>)
    requires HandshakeOf(v, p.c, inbox) && DelimitersOf(v, p, inbox) && v.c.alive && v.c.pc == OwesDelimiter
    ensures DelimitersOf(WriteDelimiter(v), p, inbox)
  {
    assert Delimiter in v.h.committed + [Delimiter];
  }

  lemma ResumeKeepsDelimiters(v: Local, p: Endpoint, inbox: seq<Command>)
    requires HandshakeOf(v, p.c, inbox) && DelimitersOf(v, p, inbox) && v.c.alive
    ensures DelimitersOf(Resume(v), p, inbox)
  {
    if v.c.pc == OwesDelimiter { WriteDelimiterKeepsDelimiters(v, p, inbox); }
  }

  lemma TermKeepsDelimiters(v: Local, p: Endpoint, inbox: seq<Command>)
    requires HandshakeOf(v, p.c, inbox) && DelimitersOf(v, p, inbox)
    requires v.c.alive && v.c.pc == Idle && inbox != [] && inbox[0] == PipeTerm
    ensures DelimitersOf(ProcessPipeTerm(v), p, inbox[1..])
  {
    Receive(inbox, 0);
  }

  lemma AckKeepsDelimiters(v: Local, p: Endpoint, inbox: seq<Command>)
    requires HandshakeOf(v, p.c, inbox) && DelimitersOf(v, p, inbox)
    requires v.c.alive && v.c.pc == Idle && inbox != [] && inbox[0] == PipeTermAck
    ensures DelimitersOf(ProcessPipeTermAck(v), p, inbox[1..])
  {
    Receive(inbox, 0);
  }

  lemma ReceiveKeepsDelimiters(v: Local, p: Endpoint, inbox: seq<Command>)
    requires HandshakeOf(v, p.c, inbox) && DelimitersOf(v, p, inbox)
    requires v.c.alive && v.c.pc == Idle && inbox != []
    ensures DelimitersOf(ProcessCommand(v, inbox[0]), p, inbox[1..])
  {
    if inbox[0] == PipeTerm {
      TermKeepsDelimiters(v, p, inbox);
    } else if inbox[0] == PipeTermAck {
      AckKeepsDelimiters(v, p, inbox);
    } else {
      Receive(inbox, 0);
    }
  }

  // wake-ups

  /** A step that neither wakes the peer nor changes the activity of a live reader. */
  lemma QuietStepKeepsWakeups(v: Local, w: Local, p: Endpoint, inbox: seq<Command>, c: Command)
    requires WakeupsOf(v, p, inbox) && c != ActivateRead
    requires w.outq.asleep == v.outq.asleep && w.outq.published == v.outq.published
    requires w.inq.asleep == v.inq.asleep && (v.inq.published == [] ==> w.inq.published == [])
    requires w.f.inActive == v.f.inActive
    requires w.c.alive ==> v.c.alive
    requires w.c.Readable() ==> v.c.Readable()
    requires (w.c.pc == OwesWakeup) == (v.c.pc == OwesWakeup)
    requires w.sent == v.sent || w.sent == v.sent + [c]
    ensures WakeupsOf(w, p, inbox)
  {
  }

  lemma FallAsleepKeepsWakeups(v: Local, p: Endpoint, inbox: seq<Command>, q: Queue<Msg>)
    requires WakeupsOf(v, p, inbox) && q.published == [] && q.asleep == v.inq.asleep
    requires v.c.alive && v.f.inActive
    ensures WakeupsOf(FallAsleep(v, q), p, inbox)
  {
  }

  lemma TakeFrameKeepsWakeups(v: Local, p: Endpoint, inbox: seq<Command>, q: Queue<Msg>)
    requires WakeupsOf(v, p, inbox) && q.published != [] && v.inq.published != [] && q.asleep == v.inq.asleep
    ensures WakeupsOf(TakeFrame(v, q), p, inbox)
  {
    var w := TakeFrame(v, q);
    QuietStepKeepsWakeups(v, w, p, inbox, ActivateWrite(w.f.msgsRead));
  }

  lemma TakeDelimiterKeepsWakeups(v: Local, p: Endpoint, inbox: seq<Command>, q: Queue<Msg>)
    requires WakeupsOf(v, p, inbox) && q.published != [] && v.inq.published != [] && q.asleep == v.inq.asleep
    ensures WakeupsOf(TakeDelimiter(v, q), p, inbox)
  {
    QuietStepKeepsWakeups(v, TakeDelimiter(v, q), p, inbox, PipeTermAck);
  }

  lemma ReadKeepsWakeups(v: Local, p: Endpoint, inbox: seq<Command>)
    requires WakeupsOf(v, p, inbox) && v.c.alive
    ensures WakeupsOf(Read(v), p, inbox)
  {
    if v.f.inActive && v.c.Readable() {
      var q := SkipCredentials(v.inq);
      if q.published == [] {
        FallAsleepKeepsWakeups(v, p, inbox, q);
      } else if q.published[0].Delimiter? {
        TakeDelimiterKeepsWakeups(v, p, inbox, q);
      } else {
        TakeFrameKeepsWakeups(v, p, inbox, q);
      }
    }
  }

  lemma CheckReadKeepsWakeups(v: Local, p: Endpoint, inbox: seq<Command>)
    requires WakeupsOf(v, p, inbox) && v.c.alive
    ensures WakeupsOf(CheckRead(v), p, inbox)
  {
    if v.f.inActive && v.c.Readable() {
      if v.inq.published == [] {
        FallAsleepKeepsWakeups(v, p, inbox, v.inq);
      } else if v.inq.published[0].Delimiter? {
        TakeDelimiterKeepsWakeups(v, p, inbox, v.inq);
      }
    }
  }

  lemma FlushKeepsWakeups(v: Local, p: Endpoint, inbox: seq<Command>)
    requires WakeupsOf(v, p, inbox) && v.c.pc == Idle && (v.c.outPipe ==> p.c.alive)
    ensures WakeupsOf(FlushQueue(v), p, inbox)
  {
  }

  lemma WriteKeepsWakeups(v: Local, p: Endpoint, inbox: seq<Command>, op: Op)
    requires WakeupsOf(v, p, inbox)
    requires op.OpWrite? || op.OpCheckWrite? || op.OpRollback? || op.OpSetNodelay?
    ensures WakeupsOf(Call(v, op), p, inbox)
  {
    WriterFrame(v, op);
    QuietStepKeepsWakeups(v, Call(v, op), p, inbox, PipeTermAck);
  }

  /** Writing and rolling back publish nothing and send nothing. */
  lemma WriterFrame(v: Local, op: Op)
    requires op.OpWrite? || op.OpCheckWrite? || op.OpRollback? || op.OpSetNodelay?
    ensures var w := Call(v, op);
            && w.inq == v.inq && w.outq.published == v.outq.published && w.outq.asleep == v.outq.asleep
            && w.f.inActive == v.f.inActive && w.sent == v.sent
            && w.c.pc == v.c.pc && w.c.alive == v.c.alive && w.c.state == v.c.state
  {
  }

  lemma TerminateKeepsWakeups(v: Local, p: Endpoint, inbox: seq<Command>, delay: bool)
    requires WakeupsOf(v, p, inbox) && v.c.pc == Idle
    ensures WakeupsOf(Terminate(v, delay), p, inbox)
  {
    QuietStepKeepsWakeups(v, Terminate(v, delay), p, inbox,
                          if v.c.state == WaitingForDelimiter then PipeTermAck else PipeTerm);
  }

  lemma ResumeKeepsWakeups(v: Local, p: Endpoint, inbox: seq<Command>)
    requires WakeupsOf(v, p, inbox) && (v.c.outPipe ==> p.c.alive)
    ensures WakeupsOf(Resume(v), p, inbox)
  {
    if v.c.pc == OwesDelimiter {
      var v1 := Rollback(v);
      var v2 := v1.(outq := Write(v1.outq, Delimiter, false), c := v1.c.(pc := Idle),
                    h := v1.h.(committed := v1.h.committed + [Delimiter]),
                    ok := v1.ok && v1.c.outPipe);
      QuietStepKeepsWakeups(v, v2, p, inbox, PipeTermAck);
      FlushKeepsWakeups(v2, p, inbox);
      assert Resume(v) == FlushQueue(v2);
    } 
  }

  lemma ReceivingKeepsWakeups(pc: Pc, r: Control, inActive: bool, q: Queue<Msg>, ch: seq<Command>)
    requires Wakeups(pc, r, inActive, q, ch) && ch != []
    ensures ch[0] != ActivateRead ==> Wakeups(pc, r, inActive, q, ch[1..])
    ensures ch[0] == ActivateRead ==> Wakeups(pc, r, inActive || r.Readable(), q, ch[1..])
  {
    Receive(ch, 0);
  }

  lemma ArrivalFrame(v: Local, c: Command)
    requires c != ActivateRead
    ensures Arrived(v, ProcessCommand(v, c))
  {
    match c
    case PipeTerm => TermArrived(v);
    case PipeTermAck => AckArrived(v);
    case _ =>
  }

  predicate Arrived(v: Local, w: Local) {
    && w.outq == v.outq && w.inq == v.inq && w.f.inActive == v.f.inActive && w.c.pc == v.c.pc
    && (w.c.alive ==> v.c.alive) && (w.c.Readable() ==> v.c.Readable())
    && (w.sent == v.sent || w.sent == v.sent + [PipeTermAck])
  }

  lemma TermArrived(v: Local)
    ensures Arrived(v, ProcessPipeTerm(v))
  {
  }

  lemma AckArrived(v: Local)
    ensures Arrived(v, ProcessPipeTermAck(v))
  {
  }

  lemma OtherArrivalKeepsWakeups(v: Local, p: Endpoint, inbox: seq<Command>, c: Command)
    requires WakeupsOf(v, p, inbox) && c != ActivateRead
    ensures WakeupsOf(ProcessCommand(v, c), p, inbox)
  {
    ArrivalFrame(v, c);
    QuietStepKeepsWakeups(v, ProcessCommand(v, c), p, inbox, PipeTermAck);
  }

  lemma ReceiveKeepsWakeups(v: Local, p: Endpoint, inbox: seq<Command>)
    requires WakeupsOf(v, p, inbox) && inbox != []
    ensures WakeupsOf(ProcessCommand(v, inbox[0]), p, inbox[1..])
  {
    ReceivingKeepsWakeups(p.c.pc, v.c, v.f.inActive, v.inq, inbox);
    if inbox[0] != ActivateRead {
      OtherArrivalKeepsWakeups(v, p, inbox[1..], inbox[0]);
    }
  }

  // ---------------------------------------------------------------- every step

  /** Everything at once, seen from one endpoint. */
  predicate InvOf(v: Local, p: Endpoint, inbox: seq<Command>) {
    && HandshakeOf(v, p.c, inbox)
    && FlowOf(v, p, inbox)
    && ContentsOf(v, p)
    && DelimitersOf(v, p, inbox)
    && WakeupsOf(v, p, inbox)
  }

  predicate Inv(s: Sys) {
    InvOf(LocalOf(s), s.b, s.toA)
  }

  lemma CallKeepsHandshake(v: Local, p: Endpoint, inbox: seq<Command>, op: Op)
    requires InvOf(v, p, inbox) && v.c.alive && v.c.pc == Idle
    ensures HandshakeOf(Call(v, op), p.c, inbox)
  {
    match op
    case OpRead => ReadKeepsHandshake(v, p.c, inbox);
    case OpCheckRead => CheckReadKeepsHandshake(v, p.c, inbox);
    case OpWrite(more, routingId, credential, body) =>
      WriteKeepsHandshake(v, p.c, inbox, Frame(more, routingId, credential, body));
    case OpCheckWrite => WriteKeepsHandshake(v, p.c, inbox, Delimiter);
    case OpRollback => RollbackKeepsHandshake(v, p.c, inbox);
    case OpFlush => FlushKeepsHandshake(v, p.c, inbox);
    case OpTerminate(delay) => TerminateKeepsHandshake(v, p.c, inbox, delay);
    case OpSetNodelay => WriteKeepsHandshake(v, p.c, inbox, Delimiter);
    case _ =>
  }

  lemma CallKeepsFlow(v: Local, p: Endpoint, inbox: seq<Command>, op: Op)
    requires InvOf(v, p, inbox)
    ensures FlowOf(Call(v, op), p, inbox)
  {
    match op
    case OpRead => ReadKeepsFlow(v, p, inbox);
    case OpCheckRead => ReadKeepsFlow(v, p, inbox);
    case OpWrite(more, routingId, credential, body) =>
      WriteKeepsFlow(v, p, inbox, Frame(more, routingId, credential, body));
    case OpCheckWrite => CheckWriteKeepsFlow(v, p, inbox);
    case OpTerminate(delay) => TerminateKeepsFlow(v, p, inbox, delay);
    case _ => QuietStepKeepsFlow(v, Call(v, op), p, inbox, PipeTermAck);
  }

  lemma CallKeepsDelimiters(v: Local, p: Endpoint, inbox: seq<Command>, op: Op)
    requires InvOf(v, p, inbox) && v.c.alive && v.c.pc == Idle
    ensures DelimitersOf(Call(v, op), p, inbox)
  {
    match op
    case OpRead => ReadKeepsDelimiters(v, p, inbox);
    case OpCheckRead => CheckReadKeepsDelimiters(v, p, inbox);
    case OpWrite(more, routingId, credential, body) =>
      WriteKeepsDelimiters(v, p, inbox, Frame(more, routingId, credential, body));
    case OpTerminate(delay) => TerminateKeepsDelimiters(v, p, inbox, delay);
    case _ => QuietKeepsDelimiters(v, p, inbox, op);
  }

  lemma QuietKeepsDelimiters(v: Local, p: Endpoint, inbox: seq<Command>, op: Op)
    requires DelimitersOf(v, p, inbox) && v.c.pc == Idle
    requires op == OpFlush || (IsQuiet(op) && !op.OpTerminate?)
    ensures DelimitersOf(Call(v, op), p, inbox)
  {
  }

  lemma CallKeepsWakeups(v: Local, p: Endpoint, inbox: seq<Command>, op: Op)
    requires InvOf(v, p, inbox) && v.c.alive && v.c.pc == Idle
    ensures WakeupsOf(Call(v, op), p, inbox)
  {
    match op
    case OpRead => ReadKeepsWakeups(v, p, inbox);
    case OpCheckRead => CheckReadKeepsWakeups(v, p, inbox);
    case OpFlush => FlushKeepsWakeups(v, p, inbox);
    case OpTerminate(delay) => TerminateKeepsWakeups(v, p, inbox, delay);
    case OpReceive =>
    case OpResume =>
    case _ => WriteKeepsWakeups(v, p, inbox, op);
  }

  lemma CallKeepsInv(v: Local, p: Endpoint, inbox: seq<Command>, op: Op)
    requires InvOf(v, p, inbox) && v.c.alive && v.c.pc == Idle
    ensures InvOf(Call(v, op), p, inbox)
  {
    CallKeepsHandshake(v, p, inbox, op);
    CallKeepsFlow(v, p, inbox, op);
    CallKeepsContents(v, p, op);
    CallKeepsDelimiters(v, p, inbox, op);
    CallKeepsWakeups(v, p, inbox, op);
  }

  lemma ResumeKeepsInv(v: Local, p: Endpoint, inbox: seq<Command>)
    requires InvOf(v, p, inbox) && v.c.alive
    ensures InvOf(Resume(v), p, inbox)
  {
    ResumeKeepsHandshake(v, p.c, inbox);
    ResumeKeepsFlow(v, p, inbox);
    ResumeKeepsContents(v, p);
    ResumeKeepsDelimiters(v, p, inbox);
    ResumeKeepsWakeups(v, p, inbox);
  }

  lemma ReceiveKeepsInv(v: Local, p: Endpoint, inbox: seq<Command>)
    requires InvOf(v, p, inbox) && v.c.alive && v.c.pc == Idle && inbox != []
    ensures InvOf(ProcessCommand(v, inbox[0]), p, inbox[1..])
  {
    ReceiveKeepsHandshake(v, p.c, inbox);
    ReceiveKeepsFlow(v, p, inbox);
    ReceiveKeepsContents(v, p, inbox[0]);
    ReceiveKeepsDelimiters(v, p, inbox);
    ReceiveKeepsWakeups(v, p, inbox);
  }

  lemma SwapKeepsInv(s: Sys)
    requires Inv(s)
    ensures Inv(Swap(s))
  {
  }

  lemma ResumeStepKeepsInv(s: Sys)
    requires Inv(s) && s.a.c.alive
    ensures Inv(Put(s, Resume(LocalOf(s))))
  {
    var v := LocalOf(s);
    ResumeKeepsInv(v, s.b, s.toA);
    assert LocalOf(Put(s, Resume(v))) == Resume(v);
  }

  lemma ReceiveStepKeepsInv(s: Sys)
    requires Inv(s) && s.a.c.alive && s.a.c.pc == Idle && s.toA != []
    ensures Inv(Put(s.(toA := s.toA[1..]), ProcessCommand(LocalOf(s), s.toA[0])))
  {
    var v := LocalOf(s);
    ReceiveKeepsInv(v, s.b, s.toA);
    assert LocalOf(Put(s.(toA := s.toA[1..]), ProcessCommand(v, s.toA[0]))) == ProcessCommand(v, s.toA[0]);
  }

  lemma CallStepKeepsInv(s: Sys, op: Op)
    requires Inv(s) && s.a.c.alive && s.a.c.pc == Idle
    ensures Inv(Put(s, Call(LocalOf(s), op)))
  {
    var v := LocalOf(s);
    CallKeepsInv(v, s.b, s.toA, op);
    assert LocalOf(Put(s, Call(v, op))) == Call(v, op);
  }

  lemma StepAKeepsInv(s: Sys, op: Op)
    requires Inv(s)
    ensures Inv(StepA(s, op))
  {
    if s.a.c.alive {
      if op == OpResume {
        ResumeStepKeepsInv(s);
      } else if s.a.c.pc == Idle {
        if op != OpReceive {
          CallStepKeepsInv(s, op);
        } else if s.toA != [] {
          ReceiveStepKeepsInv(s);
        }
      }
    }
  }

  lemma StepKeepsInv(s: Sys, act: Action)
    requires Inv(s)
    ensures Inv(Step(s, act))
  {
    if act.byA {
      StepAKeepsInv(s, act.op);
    } else {
      SwapKeepsInv(s);
      StepAKeepsInv(Swap(s), act.op);
      SwapKeepsInv(StepA(Swap(s), act.op));
    }
  }

  lemma PipepairHandshake(hwmA: int, hwmB: int)
    ensures var s := Pipepair(hwmA, hwmB); HandshakeOf(LocalOf(s), s.b.c, s.toA)
  {
  }

  lemma PipepairFlow(hwmA: int, hwmB: int)
    ensures var s := Pipepair(hwmA, hwmB); FlowOf(LocalOf(s), s.b, s.toA)
  {
  }

  lemma PipepairContents(hwmA: int, hwmB: int)
    ensures var s := Pipepair(hwmA, hwmB); ContentsOf(LocalOf(s), s.b)
  {
  }

  lemma PipepairDelimiters(hwmA: int, hwmB: int)
    ensures var s := Pipepair(hwmA, hwmB); DelimitersOf(LocalOf(s), s.b, s.toA)
  {
  }

  lemma PipepairWakeups(hwmA: int, hwmB: int)
    ensures var s := Pipepair(hwmA, hwmB); WakeupsOf(LocalOf(s), s.b, s.toA)
  {
  }

  lemma PipepairInv(hwmA: int, hwmB: int)
    ensures Inv(Pipepair(hwmA, hwmB))
  {
    PipepairHandshake(hwmA, hwmB);
    PipepairFlow(hwmA, hwmB);
    PipepairContents(hwmA, hwmB);
    PipepairDelimiters(hwmA, hwmB);
    PipepairWakeups(hwmA, hwmB);
  }

  lemma {:induction false} RunKeepsInv(s: Sys, acts: seq<Action>)
    requires Inv(s)
    ensures Inv(Run(s, acts))
    decreases |acts|
  {
    if acts != [] {
      RunKeepsInv(s, acts[..|acts| - 1]);
      StepKeepsInv(Run(s, acts[..|acts| - 1]), acts[|acts| - 1]);
    }
  }
}
