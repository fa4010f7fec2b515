/**
 Two connected `pipe_t` endpoints as a transition system.

 Every handler of one endpoint is a function on a `Local` view: the endpoint's own fields, the
 queue it reads, the queue it writes, and the commands it has sent that the peer has not yet
 processed. A handler that touches shared state more than once is cut at each such point, so the
 peer may run in between: `terminate` first sends `pipe_term`, later publishes the delimiter, and
 later still wakes the reader.
 */
module PipeProtocol {
  import opened Queues

  /** `body` identifies the payload. A delimiter has no flags. */
  datatype Msg =
    | Frame(more: bool, routingId: bool, credential: bool, body: nat)
    | Delimiter
  {
    predicate More() { Frame? && more }
    predicate Credential() { Frame? && credential }
    /** The last frame of a message that counts against the high watermark. */
    predicate Counted() { Frame? && !more && !routingId }
  }

  datatype State =
    | Active | DelimiterReceived | WaitingForDelimiter | TermAckSent | TermReqSent1 | TermReqSent2

  datatype Command = ActivateRead | ActivateWrite(msgsRead: nat) | PipeTerm | PipeTermAck

  /** Where the endpoint's thread stands inside a handler. */
  datatype Pc = Idle | OwesDelimiter | OwesWakeup

  /** The termination handshake of one endpoint, with what it has sent and received so far. */
  datatype Control = Control(
    state: State, delay: bool,
    outPipe: bool,           // the outbound queue pointer is not NULL
    alive: bool,             // not deallocated; the inbound queue lives exactly as long
    pc: Pc,
    termSent: nat, ackSent: nat, termGot: nat, ackGot: nat)
  {
    predicate Readable() { state == Active || state == WaitingForDelimiter }
  }

  /** Activity flags and watermarks. */
  datatype Flow = Flow(
    inActive: bool, outActive: bool, hwm: int, lwm: int,
    msgsRead: nat, msgsWritten: nat, peersMsgsRead: nat)
  {
    /** `check_hwm` negated. */
    predicate Full() { hwm > 0 && msgsWritten - peersMsgsRead >= hwm }
  }

  /** What the user of an endpoint wrote and read so far. No handler looks at it. */
  datatype History = History(
    committed: seq<Msg>,     // complete messages and delimiters written
    delivered: seq<Msg>,     // frames that `read` returned
    sawDelimiter: bool)      // consumed the peer's delimiter

  /** `(hwm + 1) / 2` with C++ division, which truncates towards zero. */
  function ComputeLwm(hwm: int): int {
    if hwm + 1 >= 0 then (hwm + 1) / 2 else -(-(hwm + 1) / 2)
  }

  /**
   One endpoint with the two queues and the commands on their way to its peer. `ok` turns false
   when a `zmq_assert` fails or when freed memory is touched: the outbound queue is freed by the
   peer when the peer goes away.
   */
  datatype Local = Local(
    c: Control, f: Flow, h: History, inq: Queue<Msg>, outq: Queue<Msg>, sent: seq<Command>,
    peerAlive: bool, ok: bool)

  // ---------------------------------------------------------------- reading

  /** Gives up the outbound queue, acknowledges and moves to `state`. */
  function SendAck(v: Local, state: State): Local {
    v.(c := v.c.(state := state, outPipe := false, ackSent := v.c.ackSent + 1),
       sent := v.sent + [PipeTermAck],
       ok := v.ok && v.peerAlive)
  }

  function ProcessDelimiter(v: Local): Local {
    match v.c.state
    case Active => v.(c := v.c.(state := DelimiterReceived))
    case WaitingForDelimiter => SendAck(v, TermAckSent)
    case _ => v.(ok := false)
  }

  /** Pops leading credential frames, as the loop in `read` does. */
  function SkipCredentials(q: Queue<Msg>): (r: Queue<Msg>)
    ensures r.published == [] || !r.published[0].Credential()
    ensures r.got + r.published == q.got + q.published
    ensures r.complete == q.complete && r.partial == q.partial && r.asleep == q.asleep
    ensures |q.got| <= |r.got| && |r.published| <= |q.published|
    decreases |q.published|
  {
    if q.published != [] && q.published[0].Credential() then SkipCredentials(Pop(q)) else q
  }

  /** Nothing to read: the reader becomes dormant. */
  function FallAsleep(v: Local, q: Queue<Msg>): Local {
    v.(inq := Probe(q), f := v.f.(inActive := false))
  }

  function TakeDelimiter(v: Local, q: Queue<Msg>): Local
    requires q.published != []
  {
    ProcessDelimiter(v.(inq := Pop(q), h := v.h.(sawDelimiter := true)))
  }

  /** Hands out the first frame and reports progress at every multiple of the low watermark. */
  function TakeFrame(v: Local, q: Queue<Msg>): Local
    requires q.published != []
  {
    var n := v.f.msgsRead + (if q.published[0].Counted() then 1 else 0);
    var report := v.f.lwm > 0 && n % v.f.lwm == 0;
    v.(inq := Pop(q),
       f := v.f.(msgsRead := n),
       h := v.h.(delivered := v.h.delivered + [q.published[0]]),
       sent := if report then v.sent + [ActivateWrite(n)] else v.sent,
       ok := v.ok && (report ==> v.peerAlive))
  }

  /** `read`. The frame handed out is the last of `h.delivered`. */
  function Read(v: Local): Local {
    if !v.f.inActive || !v.c.Readable() then v
    else
      var q := SkipCredentials(v.inq);
      if q.published == [] then FallAsleep(v, q)
      else if q.published[0].Delimiter? then TakeDelimiter(v, q)
      else TakeFrame(v, q)
  }

  function CheckRead(v: Local): Local {
    if !v.f.inActive || !v.c.Readable() then v
    else if v.inq.published == [] then FallAsleep(v, v.inq)
    else if v.inq.published[0].Delimiter? then TakeDelimiter(v, v.inq)
    else v
  }

  // ---------------------------------------------------------------- writing

  predicate CanWrite(v: Local) {
    v.f.outActive && v.c.state == Active && !v.f.Full()
  }

  function CheckWrite(v: Local): Local {
    if v.f.outActive && v.c.state == Active && v.f.Full() then v.(f := v.f.(outActive := false)) else v
  }

  function WriteFrame(v: Local, m: Msg): Local {
    if !CanWrite(v) then CheckWrite(v)
    else
      v.(outq := Write(v.outq, m, m.More()),
         f := v.f.(msgsWritten := v.f.msgsWritten + (if m.Counted() then 1 else 0)),
         h := if m.More() then v.h else v.h.(committed := v.h.committed + v.outq.partial + [m]),
         ok := v.ok && v.c.outPipe && v.peerAlive)
  }

  /** Every item taken back by `unwrite` must carry the `more` flag. */
  function Rollback(v: Local): Local {
    if !v.c.outPipe then v
    else
      v.(outq := UnwriteAll(v.outq),
         ok := v.ok && v.peerAlive && forall m :: m in v.outq.partial ==> m.More())
  }

  /** The compare-and-swap of `flush`; the wake-up it may owe comes as a step of its own. */
  function FlushQueue(v: Local): Local {
    if v.c.state == TermAckSent || !v.c.outPipe then v
    else
      v.(outq := Flush(v.outq),
         c := if FlushFoundReaderAwake(v.outq) then v.c else v.c.(pc := OwesWakeup),
         ok := v.ok && v.peerAlive)
  }

  function Wakeup(v: Local): Local {
    v.(c := v.c.(pc := Idle), sent := v.sent + [ActivateRead], ok := v.ok && v.peerAlive)
  }

  // ---------------------------------------------------------------- terminating

  /** `terminate` up to the point where the delimiter is to be written. */
  function Terminate(v: Local, delay: bool): Local {
    match v.c.state
    case Active | DelimiterReceived =>
      v.(c := v.c.(delay := delay, state := TermReqSent1, termSent := v.c.termSent + 1,
                   pc := if v.c.outPipe then OwesDelimiter else Idle),
         f := v.f.(outActive := false),
         sent := v.sent + [PipeTerm],
         ok := v.ok && v.peerAlive)
    case WaitingForDelimiter =>
      var v1 := v.(c := v.c.(delay := delay), f := v.f.(outActive := false));
      if delay then v1.(c := v1.c.(pc := if v.c.outPipe then OwesDelimiter else Idle))
      else SendAck(Rollback(v1), TermAckSent)
    case _ => v.(c := v.c.(delay := delay))
  }

  /** The rest of `terminate`: drop the unfinished message, write the delimiter, flush. */
  function WriteDelimiter(v: Local): Local {
    var v1 := Rollback(v);
    FlushQueue(v1.(outq := Write(v1.outq, Delimiter, false),
                   c := v1.c.(pc := Idle),
                   h := v1.h.(committed := v1.h.committed + [Delimiter]),
                   ok := v1.ok && v1.c.outPipe))
  }

  // ---------------------------------------------------------------- commands

  function ProcessActivateRead(v: Local): Local {
    if v.c.Readable() then v.(f := v.f.(inActive := true)) else v
  }

  function ProcessActivateWrite(v: Local, msgsRead: nat): Local {
    v.(f := v.f.(peersMsgsRead := msgsRead, outActive := v.f.outActive || v.c.state == Active))
  }

  function ProcessPipeTerm(v: Local): Local {
    var v0 := v.(c := v.c.(termGot := v.c.termGot + 1));
    match v.c.state
    case Active =>
      if v.c.delay then v0.(c := v0.c.(state := WaitingForDelimiter)) else SendAck(v0, TermAckSent)
    case DelimiterReceived => SendAck(v0, TermAckSent)
    case TermReqSent1 => SendAck(v0, TermReqSent2)
    case _ => v0.(ok := false)
  }

  /** Frees the inbound queue and the endpoint itself. */
  function ProcessPipeTermAck(v: Local): Local {
    var v0 := v.(c := v.c.(ackGot := v.c.ackGot + 1, alive := false));
    match v.c.state
    case TermReqSent1 => SendAck(v0, TermReqSent1)
    case TermAckSent | TermReqSent2 => v0
    case _ => v0.(ok := false)
  }

  function ProcessCommand(v: Local, c: Command): Local {
    match c
    case ActivateRead => ProcessActivateRead(v)
    case ActivateWrite(n) => ProcessActivateWrite(v, n)
    case PipeTerm => ProcessPipeTerm(v)
    case PipeTermAck => ProcessPipeTermAck(v)
  }

  // ---------------------------------------------------------------- the pair

  datatype Endpoint = Endpoint(c: Control, f: Flow, h: History)

  datatype Sys = Sys(
    a: Endpoint, b: Endpoint,
    ab: Queue<Msg>, ba: Queue<Msg>,     // a writes ab, b writes ba
    toA: seq<Command>, toB: seq<Command>,
    ok: bool)

  function InitEndpoint(inHwm: int, outHwm: int): Endpoint {
    Endpoint(Control(Active, true, true, true, Idle, 0, 0, 0, 0),
             Flow(true, true, outHwm, ComputeLwm(inHwm), 0, 0, 0),
             History([], [], false))
  }

  /** `pipepair`: `hwmA` limits what `a` may write, `hwmB` what `b` may write. */
  function Pipepair(hwmA: int, hwmB: int): Sys {
    Sys(InitEndpoint(hwmB, hwmA), InitEndpoint(hwmA, hwmB), Empty(), Empty(), [], [], true)
  }

  function Swap(s: Sys): Sys {
    Sys(s.b, s.a, s.ba, s.ab, s.toB, s.toA, s.ok)
  }

  function LocalOf(s: Sys): Local {
    Local(s.a.c, s.a.f, s.a.h, s.ba, s.ab, s.toB, s.b.c.alive, s.ok)
  }

  function Put(s: Sys, v: Local): Sys {
    s.(a := Endpoint(v.c, v.f, v.h), ba := v.inq, ab := v.outq, toB := v.sent, ok := v.ok)
  }

  /** What one endpoint's thread can do. */
  datatype Op =
    | OpRead | OpCheckRead
    | OpWrite(more: bool, routingId: bool, credential: bool, body: nat) | OpCheckWrite
    | OpRollback | OpFlush | OpTerminate(delay: bool) | OpSetNodelay
    | OpReceive     // process the oldest command sent by the peer
    | OpResume      // run the next part of an unfinished handler

  function Call(v: Local, op: Op): Local {
    match op
    case OpRead => Read(v)
    case OpCheckRead => CheckRead(v)
    case OpWrite(more, routingId, credential, body) =>
      WriteFrame(v, Frame(more, routingId, credential, body))
    case OpCheckWrite => CheckWrite(v)
    case OpRollback => Rollback(v)
    case OpFlush => FlushQueue(v)
    case OpTerminate(delay) => Terminate(v, delay)
    case OpSetNodelay => v.(c := v.c.(delay := false))
    case _ => v
  }

  function Resume(v: Local): Local {
    match v.c.pc
    case OwesDelimiter => WriteDelimiter(v)
    case OwesWakeup => Wakeup(v)
    case Idle => v
  }

  /** A step of `a`. An operation that is not possible now leaves the system as it is. */
  function StepA(s: Sys, op: Op): Sys {
    if !s.a.c.alive then s
    else if op == OpResume then Put(s, Resume(LocalOf(s)))
    else if s.a.c.pc != Idle then s
    else if op == OpReceive then
      if s.toA == [] then s
      else Put(s.(toA := s.toA[1..]), ProcessCommand(LocalOf(s), s.toA[0]))
    else Put(s, Call(LocalOf(s), op))
  }

  datatype Action = Action(byA: bool, op: Op)

  function Step(s: Sys, act: Action): Sys {
    if act.byA then StepA(s, act.op) else Swap(StepA(Swap(s), act.op))
  }

  /** Any interleaving of the two threads. */
  function Run(s: Sys, acts: seq<Action>): Sys
    decreases |acts|
  {
    if acts == [] then s else Step(Run(s, acts[..|acts| - 1]), acts[|acts| - 1])
  }
}
