/**
 `pipe_t` as an object: the fields of one endpoint and the methods that change them in place.
 Each method is proved to do what the corresponding handler of `PipeProtocol` does, running a
 handler to its end. The methods that the source guards with `zmq_assert` are called in a state the
 protocol can reach, and their assertions are proved there.
 */
module PipeObject {
  import opened Queues
  import opened PipeProtocol
  import opened PipeInvariant

  /** The message queue between two pipe ends, by its contract. */
  class MessageQueue {
    var q: Queue<Msg>

    constructor ()
      ensures q == Empty()
    {
      q := Empty();
    }

    method Write(m: Msg, incomplete: bool)
      modifies this
      ensures q == Queues.Write(old(q), m, incomplete)
    {
      q := Queues.Write(q, m, incomplete);
    }

    /** Takes back the newest item of the incomplete tail. */
    method Unwrite() returns (ok: bool, m: Msg)
      modifies this
      ensures ok == (old(q).partial != [])
      ensures ok ==> m == old(q).partial[|old(q).partial| - 1]
      ensures q == if ok then old(q).(partial := old(q).partial[..|old(q).partial| - 1]) else old(q)
    {
      ok, m := q.partial != [], Delimiter;
      if ok {
        m := q.partial[|q.partial| - 1];
        q := q.(partial := q.partial[..|q.partial| - 1]);
      }
    }

    method Flush() returns (readerAwake: bool)
      modifies this
      ensures readerAwake == FlushFoundReaderAwake(old(q))
      ensures q == Queues.Flush(old(q))
    {
      readerAwake := FlushFoundReaderAwake(q);
      q := Queues.Flush(q);
    }

    method CheckRead() returns (ok: bool)
      modifies this
      ensures ok == (old(q).published != [])
      ensures q == Probe(old(q))
    {
      ok := q.published != [];
      q := Probe(q);
    }

    method Read() returns (ok: bool, m: Msg)
      modifies this
      ensures ok == (old(q).published != [])
      ensures ok ==> m == old(q).published[0] && q == Pop(old(q))
      ensures !ok ==> q == Probe(old(q))
    {
      ok := CheckRead();
      m := Delimiter;
      if ok {
        m := q.published[0];
        q := Pop(q);
      }
    }
  }

  class Pipe {
    var state: State
    var delay: bool
    var inActive: bool
    var outActive: bool
    var hwm: int
    var lwm: int
    var msgsRead: nat
    var msgsWritten: nat
    var peersMsgsRead: nat
    const inPipe: MessageQueue
    var outPipe: MessageQueue?
    var outbox: seq<Command>         // sent to the peer, not yet processed there
    ghost const out: MessageQueue    // the queue `outPipe` points to while it is not NULL
    ghost var counts: Control        // its counters tell how often each command was sent and received
    ghost var history: History

    ghost predicate Valid()
      reads this
    {
      inPipe != out && (outPipe == null || outPipe == out)
    }

    /** The endpoint as the protocol sees it between two handlers. */
    ghost function View(): Local
      requires Valid()
      reads this, inPipe, out
    {
      Local(counts.(state := state, delay := delay, outPipe := outPipe != null, pc := Idle),
            Flow(inActive, outActive, hwm, lwm, msgsRead, msgsWritten, peersMsgsRead),
            history, inPipe.q, out.q, outbox, true, true)
    }

    /** The constructor as `pipepair` uses it. */
    constructor (inQueue: MessageQueue, outQueue: MessageQueue, inHwm: int, outHwm: int)
      requires inQueue != outQueue && inQueue.q == Empty() && outQueue.q == Empty()
      ensures Valid() && inPipe == inQueue && out == outQueue
      ensures var e := InitEndpoint(inHwm, outHwm);
              View() == Local(e.c, e.f, e.h, Empty(), Empty(), [], true, true)
    {
      state, delay, inActive, outActive := Active, true, true, true;
      hwm, lwm := outHwm, ComputeLwm(inHwm);
      msgsRead, msgsWritten, peersMsgsRead := 0, 0, 0;
      inPipe, outPipe, out, outbox := inQueue, outQueue, outQueue, [];
      counts := InitEndpoint(inHwm, outHwm).c;
      history := InitEndpoint(inHwm, outHwm).h;
    }

    /** The endpoint and its queues are in a state that the pair can reach. */
    ghost predicate InProtocol(p: Endpoint, inbox: seq<Command>)
      reads this, inPipe, out
    {
      Valid() && InvOf(View(), p, inbox) && counts.alive
    }

    // ------------------------------------------------------------ reading

    method SendPipeTermAck(next: State)
      requires Valid()
      modifies this
      ensures Valid() && View() == SendAck(old(View()), next)
    {
      outPipe := null;
      outbox := outbox + [PipeTermAck];
      state := next;
      counts := counts.(ackSent := counts.ackSent + 1);
    }

    method ProcessDelimiter()
      requires Valid() && (state == Active || state == WaitingForDelimiter)
      modifies this
      ensures Valid() && View() == PipeProtocol.ProcessDelimiter(old(View()))
    {
      if state == Active {
        state := DelimiterReceived;
      } else {
        SendPipeTermAck(TermAckSent);
      }
    }

    method CheckRead() returns (ok: bool)
      requires Valid()
      modifies this, inPipe
      ensures Valid() && View() == PipeProtocol.CheckRead(old(View()))
      ensures ok == (old(inActive) && old(View()).c.Readable()
                     && old(inPipe.q).published != [] && old(inPipe.q).published[0].Frame?)
    {
      if !inActive || (state != Active && state != WaitingForDelimiter) {
        return false;
      }
      var available := inPipe.CheckRead();
      if !available {
        inActive := false;
        return false;
      }
      if inPipe.q.published[0].Delimiter? {
        var popped, m := inPipe.Read();
        assert popped;
        history := history.(sawDelimiter := true);
        ProcessDelimiter();
        return false;
      }
      return true;
    }

    /** The loop of `read`: takes items until one is not a credential. */
    method TakePayload() returns (ok: bool, m: Msg)
      modifies inPipe
      ensures var s := SkipCredentials(old(inPipe.q));
              && ok == (s.published != [])
              && (ok ==> m == s.published[0] && inPipe.q == Pop(s))
              && (!ok ==> inPipe.q == Probe(s))
    {
      m := Delimiter;
      var payloadRead := false;
      while !payloadRead
        invariant !payloadRead ==> SkipCredentials(inPipe.q) == SkipCredentials(old(inPipe.q))
        invariant payloadRead ==> var s := SkipCredentials(old(inPipe.q));
                                  s.published != [] && inPipe.q == Pop(s) && m == s.published[0]
        decreases |inPipe.q.published|, !payloadRead
      {
        var popped;
        popped, m := inPipe.Read();
        if !popped {
          return false, m;
        }
        if !m.Credential() {
          payloadRead := true;
        }
      }
      return true, m;
    }

    method Read() returns (ok: bool, m: Msg)
      requires Valid()
      modifies this, inPipe
      ensures Valid() && View() == PipeProtocol.Read(old(View()))
      ensures ok == (old(inActive) && old(View()).c.Readable()
                     && SkipCredentials(old(inPipe.q)).published != []
                     && SkipCredentials(old(inPipe.q)).published[0].Frame?)
      ensures ok ==> history.delivered == old(history.delivered) + [m]
    {
      if !inActive || (state != Active && state != WaitingForDelimiter) {
        return false, Delimiter;
      }
      ok, m := TakePayload();
      if !ok {
        inActive := false;
        return false, m;
      }
      if m.Delimiter? {
        history := history.(sawDelimiter := true);
        ProcessDelimiter();
        return false, m;
      }
      Deliver(m);
      return true, m;
    }

    /** Counts a frame that is handed out, and reports progress. */
    method Deliver(m: Msg)
      requires Valid() && m.Frame?
      modifies this
      ensures Valid()
      ensures var v := old(View());
              var n := v.f.msgsRead + if m.Counted() then 1 else 0;
              View() == v.(f := v.f.(msgsRead := n), h := v.h.(delivered := v.h.delivered + [m]),
                           sent := if v.f.lwm > 0 && n % v.f.lwm == 0 then v.sent + [ActivateWrite(n)] else v.sent)
    {
      history := history.(delivered := history.delivered + [m]);
      if !m.more && !m.routingId {
        msgsRead := msgsRead + 1;
      }
      if lwm > 0 && msgsRead % lwm == 0 {
        outbox := outbox + [ActivateWrite(msgsRead)];
      }
    }

    // ------------------------------------------------------------ writing

    method CheckWrite() returns (ok: bool)
      requires Valid()
      modifies this
      ensures Valid() && View() == PipeProtocol.CheckWrite(old(View()))
      ensures ok == CanWrite(old(View()))
    {
      if !outActive || state != Active {
        return false;
      }
      if hwm > 0 && msgsWritten - peersMsgsRead >= hwm {
        outActive := false;
        return false;
      }
      return true;
    }

    method Write(m: Msg, ghost p: Endpoint, ghost inbox: seq<Command>) returns (ok: bool)
      requires InProtocol(p, inbox) && m.Frame?
      modifies this, out
      ensures Valid() && View() == WriteFrame(old(View()), m)
      ensures ok == CanWrite(old(View()))
    {
      ok := CheckWrite();
      if !ok { return; }
      assert outPipe != null;
      history := if m.More() then history else history.(committed := history.committed + out.q.partial + [m]);
      outPipe.Write(m, m.more);
      if !m.more && !m.routingId {
        msgsWritten := msgsWritten + 1;
      }
    }

    method Rollback()
      requires Valid() && PartialIsMore(out.q)
      modifies out
      ensures Valid() && View() == PipeProtocol.Rollback(old(View()))
    {
      if outPipe != null {
        var more, m := outPipe.Unwrite();
        while more
          invariant more ==> m.More()
          invariant out.q == old(out.q).(partial := out.q.partial) && out.q.partial <= old(out.q.partial)
          invariant !more ==> out.q.partial == []
          decreases |out.q.partial|, more
        {
          assert m.More();      // zmq_assert (msg.flags () & msg_t::more)
          more, m := outPipe.Unwrite();
        }
      }
    }

    method Flush()
      requires Valid()
      modifies this, out
      ensures Valid() && View() == Resume(FlushQueue(old(View())))
    {
      if state == TermAckSent { return; }
      if outPipe != null {
        var readerAwake := outPipe.Flush();
        if !readerAwake {
          outbox := outbox + [ActivateRead];
        }
      }
    }

    method SetNodelay()
      requires Valid()
      modifies this
      ensures Valid() && View() == Call(old(View()), OpSetNodelay)
    {
      delay := false;
    }

    // ------------------------------------------------------------ terminating

    method SendPipeTerm()
      requires Valid()
      modifies this
      ensures Valid()
      ensures View() == old(View()).(c := old(View()).c.(state := TermReqSent1, termSent := old(counts.termSent) + 1),
                                     sent := old(outbox) + [PipeTerm])
    {
      outbox := outbox + [PipeTerm];
      counts := counts.(termSent := counts.termSent + 1);
      state := TermReqSent1;
    }

    /** The end of `terminate`. */
    method WriteDelimiter()
      requires Valid() && PartialIsMore(out.q)
      modifies this, out
      ensures Valid()
      ensures View() == if old(outPipe) == null then old(View()) else Resume(PipeProtocol.WriteDelimiter(old(View())))
    {
      if outPipe != null {
        Rollback();
        outPipe.Write(Delimiter, false);
        history := history.(committed := history.committed + [Delimiter]);
        Flush();
      }
    }

    /** `terminate` up to the point where the outbound flow is stopped. */
    method BeginTermination()
      requires Valid() && PartialIsMore(out.q)
      requires state == Active || state == DelimiterReceived || state == WaitingForDelimiter
      modifies this, out
      ensures Valid() && PartialIsMore(out.q)
      ensures var pc := if outPipe != null then OwesDelimiter else Idle;
              View().(c := View().c.(pc := pc)) == PipeProtocol.Terminate(old(View()), old(delay))
    {
      if state == WaitingForDelimiter {
        if !delay {
          Rollback();
          SendPipeTermAck(TermAckSent);
        }
      } else {
        SendPipeTerm();
      }
      outActive := false;
    }

    method Terminate(delay_: bool)
      requires Valid() && PartialIsMore(out.q)
      modifies this, out
      ensures Valid() && View() == Resume(Resume(PipeProtocol.Terminate(old(View()), delay_)))
    {
      delay := delay_;
      DelayIsOverwritten(old(View()), delay_);
      if state == TermReqSent1 || state == TermReqSent2 || state == TermAckSent { return; }
      TerminateNow();
    }

    method TerminateNow()
      requires Valid() && PartialIsMore(out.q)
      requires state == Active || state == DelimiterReceived || state == WaitingForDelimiter
      modifies this, out
      ensures Valid() && View() == Resume(Resume(PipeProtocol.Terminate(old(View()), old(delay))))
    {
      BeginTermination();
      DelimiterWithoutPc(View());
      WriteDelimiter();
    }

    // ------------------------------------------------------------ commands

    method ProcessActivateRead()
      requires Valid()
      modifies this
      ensures Valid() && View() == PipeProtocol.ProcessActivateRead(old(View()))
    {
      if !inActive && (state == Active || state == WaitingForDelimiter) {
        inActive := true;
      }
    }

    method ProcessActivateWrite(n: nat)
      requires Valid()
      modifies this
      ensures Valid() && View() == PipeProtocol.ProcessActivateWrite(old(View()), n)
    {
      peersMsgsRead := n;
      if !outActive && state == Active {
        outActive := true;
      }
    }

    method ProcessPipeTerm(ghost p: Endpoint, ghost inbox: seq<Command>)
      requires InProtocol(p, inbox) && inbox != [] && inbox[0] == PipeTerm
      modifies this
      ensures Valid() && View() == PipeProtocol.ProcessPipeTerm(old(View()))
    {
      TermFindsState(View(), p, inbox);
      AnswerPipeTerm();
    }

    method AnswerPipeTerm()
      requires Valid() && (state == Active || state == DelimiterReceived || state == TermReqSent1)
      modifies this
      ensures Valid() && View() == PipeProtocol.ProcessPipeTerm(old(View()))
    {
      counts := counts.(termGot := counts.termGot + 1);
      if state == Active {
        if delay {
          state := WaitingForDelimiter;
        } else {
          SendPipeTermAck(TermAckSent);
        }
      } else if state == DelimiterReceived {
        SendPipeTermAck(TermAckSent);
      } else if state == TermReqSent1 {
        SendPipeTermAck(TermReqSent2);
      }
    }

    /** Also drains the inbound queue; what is left in it dies with it. */
    method ProcessPipeTermAck(ghost p: Endpoint, ghost inbox: seq<Command>)
      requires InProtocol(p, inbox) && inbox != [] && inbox[0] == PipeTermAck
      modifies this, inPipe
      ensures Valid() && inPipe.q.published == []
      ensures View().(inq := old(inPipe.q)) == PipeProtocol.ProcessPipeTermAck(old(View()))
    {
      AckFindsState(View(), p, inbox);
      AnswerPipeTermAck();
      Drain();
    }

    method AnswerPipeTermAck()
      requires Valid() && (state == TermAckSent || state == TermReqSent1 || state == TermReqSent2)
      modifies this
      ensures Valid() && View() == PipeProtocol.ProcessPipeTermAck(old(View()))
    {
      if state == TermReqSent1 {
        SendPipeTermAck(TermReqSent1);
      } else {
        assert state == TermAckSent || state == TermReqSent2;
      }
      counts := counts.(ackGot := counts.ackGot + 1, alive := false);
    }

    method Drain()
      modifies inPipe
      ensures inPipe.q.published == []
    {
      var more, m := inPipe.Read();
      while more
        invariant !more ==> inPipe.q.published == []
        decreases |inPipe.q.published|, more
        modifies inPipe
      {
        more, m := inPipe.Read();
      }
    }
  }

  lemma DelayIsOverwritten(v: Local, delay: bool)
    ensures PipeProtocol.Terminate(v.(c := v.c.(delay := delay)), delay) == PipeProtocol.Terminate(v, delay)
  {
  }

  lemma DelimiterWithoutPc(v: Local)
    ensures PipeProtocol.WriteDelimiter(v.(c := v.c.(pc := OwesDelimiter))) == PipeProtocol.WriteDelimiter(v)
  {
  }

  lemma TermFindsState(v: Local, p: Endpoint, inbox: seq<Command>)
    requires InvOf(v, p, inbox) && v.c.alive && inbox != [] && inbox[0] == PipeTerm
    ensures v.c.state == Active || v.c.state == DelimiterReceived || v.c.state == TermReqSent1
  {
    Receive(inbox, 0);
  }

  lemma AckFindsState(v: Local, p: Endpoint, inbox: seq<Command>)
    requires InvOf(v, p, inbox) && v.c.alive && inbox != [] && inbox[0] == PipeTermAck
    ensures v.c.state == TermAckSent || v.c.state == TermReqSent1 || v.c.state == TermReqSent2
  {
    Receive(inbox, 0);
  }
}
