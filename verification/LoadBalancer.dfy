/**
 `lb_t`: load balancing over the outbound pipes. The parts of a message go to one pipe, which is
 flushed after the last part; then it is the turn of the next active pipe. When the pipe cannot take
 a later part, the parts written so far are rolled back and the rest of the message is dropped.
 `accepts` is the set of pipes whose `write` succeeds now.
 */
module LoadBalancer {
  import opened Bytes
  import opened Sequences
  import opened PipeArray
  import opened Queues
  import opened Frames
  import opened FairQueue

  type Outbound = map<Pipe, Queue<Frame>>

  /** The balancer: the cursor over the active pipes works as in fair queueing. */
  datatype Balancer = Balancer(q: Fair, dropping: bool)

  /** What `sendpipe` returns, and the pipe that took the frame. */
  datatype Outcome = Sent(to: Pipe) | Dropped | Again | RolledBack

  /** The balancer after `sendpipe`. */
  ghost function AfterSend(b: Balancer, frame: Frame, accepts: set<Pipe>): (r: (Balancer, Outcome))
    requires b.q.Ok() && (b.q.more && !b.dropping ==> b.q.active > 0)
  {
    if b.dropping then (Balancer(b.q.(more := frame.more), frame.more), Dropped)
    else if b.q.more && b.q.items[b.q.current] !in accepts then
      (Balancer(b.q.(more := false), frame.more), RolledBack)
    else
      var r := Seek(b.q, accepts);
      if r.active == 0 then (b.(q := r), Again)
      else (b.(q := Fetched(r, frame.more)), Sent(r.items[r.current]))
  }

  /**
   Who takes a frame: the first part of a message goes to an active pipe that accepts it, if there is
   one; a later part goes where the first went, or the message is rolled back. Then the rest is dropped.
   */
  lemma SendFinds(b: Balancer, frame: Frame, accepts: set<Pipe>)
    requires b.q.Ok() && (b.q.more && !b.dropping ==> b.q.active > 0)
    ensures var (c, o), willing := AfterSend(b, frame, accepts), Front(b.q.items, b.q.active) * accepts;
            && c.q.Ok() && (o == Dropped <==> b.dropping)
            && (!b.dropping && !b.q.more ==> if willing != {} then o.Sent? && o.to in willing else o == Again)
            && (!b.dropping && b.q.more ==>
                  o == if b.q.items[b.q.current] in willing then Sent(b.q.items[b.q.current]) else RolledBack)
            && (o.Sent? ==> !c.dropping && c.q.more == frame.more && c.q.active > 0)
            && (o.Sent? && frame.more ==> c.q.items[c.q.current] == o.to)
            && (o == Dropped || o == RolledBack ==> c.dropping == frame.more)
            && (o == Again ==> c.dropping == b.dropping && !c.q.more && c.q.active == 0)
  {
    if !b.dropping && b.q.NextPart(accepts) {
      SeekFinds(b.q, accepts);
      var r := Seek(b.q, accepts);
      if r.active > 0 {
        assert r.items[r.current] in Front(r.items, r.active);
        FetchedDistance(r, frame.more, r.current);
      }
    }
  }

  /** The queues of the pipes after `sendpipe`: a complete message is flushed at once. */
  ghost function QueuesAfter(b: Balancer, out: Outbound, frame: Frame, accepts: set<Pipe>): Outbound
    requires b.q.Ok() && (b.q.more && !b.dropping ==> b.q.active > 0)
    requires forall p :: p in Front(b.q.items, b.q.active) ==> p in out
  {
    var o := AfterSend(b, frame, accepts).1;
    match o
    case Sent(p) =>
      if p !in out then out
      else
        var q := Write(out[p], frame, frame.more);
        out[p := if frame.more then q else Flush(q)]
    case RolledBack => out[b.q.items[b.q.current] := UnwriteAll(out[b.q.items[b.q.current]])]
    case _ => out
  }

  // ---------------------------------------------------------------- the object

  class Lb {
    const pipes: Array
    var active: nat
    var current: nat
    var more: bool
    var dropping: bool
    var out: Outbound            // the outbound queues of the attached pipes

    ghost function View(): Balancer
      reads this, pipes
    {
      Balancer(Fair(pipes.items, active, current, more), dropping)
    }

    ghost predicate Valid()
      reads this, pipes
    {
      && pipes.Valid() && View().q.Ok()
      && (more && !dropping ==> active > 0)
      && (forall p :: p in pipes.items ==> p in out)
    }

    constructor ()
      ensures Valid() && View() == Balancer(Fair([], 0, 0, false), false) && out == map[] && fresh(pipes)
    {
      pipes := new Array();
      active, current, more, dropping, out := 0, 0, false, false, map[];
    }

    /** A new pipe with an empty queue. */
    method Attach(p: Pipe)
      requires Valid() && p !in pipes.items
      modifies this`active, this`out, pipes
      ensures Valid() && out == old(out)[p := Empty()]
      ensures View() == old(View()).(q := AfterAttach(old(View()).q, p))
    {
      AttachKeeps(View().q, p);
      pipes.PushBack(p);
      out := out[p := Empty()];
      pipes.Swap(|pipes.items| - 1, active);
      active := active + 1;
    }

    method Activate(p: Pipe)
      requires Valid() && p in pipes.items && p !in Front(pipes.items, active)
      modifies this`active, pipes
      ensures Valid()
      ensures exists i :: 0 <= i < |old(pipes.items)| && old(pipes.items)[i] == p
                          && View() == old(View()).(q := Activated(old(View()).q, p, i))
    {
      var i := pipes.Index(p);
      assert i >= active;
      Joins(pipes.items, i, active);
      pipes.Swap(i, active);
      active := active + 1;
      assert View() == old(View()).(q := Activated(old(View()).q, p, i));
    }

    /** If the pipe of an unfinished message goes away, the rest of the message is dropped. */
    method PipeTerminated(p: Pipe)
      requires Valid() && p in pipes.items
      modifies this, pipes
      ensures Valid() && out == old(out) - {p}
      ensures exists i :: 0 <= i < |old(pipes.items)| && old(pipes.items)[i] == p
                          && View() == AfterTerminated(old(View()), i)
    {
      var i := pipes.Index(p);
      RemovedKeeps(View().q, i);
      if i == current && more { dropping := true; }
      Remove(p, i);
      out := out - {p};
      assert View() == AfterTerminated(old(View()), i);
    }

    method Remove(p: Pipe, i: nat)
      requires pipes.Valid() && View().q.Ok() && i < |pipes.items| && pipes.items[i] == p
      modifies this`active, this`current, pipes
      ensures pipes.Valid() && View() == old(View()).(q := Removed(old(View()).q, i))
    {
      if i < active {
        active := active - 1;
        pipes.Swap(i, active);
        if current == active { current := 0; }
      }
      ghost var k := if i < old(active) then active else i;
      assert pipes.items[k] == p;
      pipes.AllDistinct();
      ghost var j := pipes.Erase(p);
      assert j == k;
    }

    method Deactivate()
      requires Valid() && active > 0 && !more
      modifies this`active, this`current, pipes
      ensures Valid() && View() == old(View()).(q := Deactivated(old(View()).q))
    {
      DeactivatedKeeps(View().q);
      active := active - 1;
      if current < active {
        pipes.Swap(current, active);
      } else {
        assert Swapped(pipes.items, current, active) == pipes.items;
        current := 0;
      }
    }

    method Send(frame: Frame, accepts: set<Pipe>) returns (o: Outcome)
      requires Valid()
      modifies this, pipes
      ensures Valid() && (View(), o) == AfterSend(old(View()), frame, accepts)
      ensures out == QueuesAfter(old(View()), old(out), frame, accepts)
      ensures o == Dropped <==> old(dropping)
      ensures !old(dropping) && !old(more) ==>
                var willing := old(Front(pipes.items, active)) * accepts;
                if willing != {} then o.Sent? && o.to in willing else o == Again
      ensures !old(dropping) && old(more) ==>
                var p := old(pipes.items[current]);
                o == if p in accepts then Sent(p) else RolledBack
    {
      SendFinds(View(), frame, accepts);
      o := Attempt(frame, accepts);
    }

    /** `sendpipe`. */
    method Attempt(frame: Frame, accepts: set<Pipe>) returns (o: Outcome)
      requires Valid()
      modifies this, pipes
      ensures Valid() && (View(), o) == AfterSend(old(View()), frame, accepts)
      ensures out == QueuesAfter(old(View()), old(out), frame, accepts)
    {
      if dropping {
        more := frame.more;
        dropping := more;
        return Dropped;
      }
      while active > 0
        invariant Valid() && !dropping && more == old(more) && out == old(out)
        invariant View() == old(View()) || !more
        invariant !more ==> Seek(View().q, accepts) == Seek(old(View()).q, accepts)
        decreases active
      {
        if pipes.items[current] in accepts { break; }
        if more {
          Rollback(pipes.items[current]);
          dropping := frame.more;
          more := false;
          return RolledBack;
        }
        Deactivate();
      }
      if active == 0 { return Again; }
      o := Sent(pipes.items[current]);
      Put(frame);
    }

    method Rollback(p: Pipe)
      requires p in out
      modifies this`out
      ensures out == old(out)[p := UnwriteAll(old(out)[p])]
    {
      out := out[p := UnwriteAll(out[p])];
    }

    /** The pipe at the cursor takes the frame. */
    method Put(frame: Frame)
      requires Valid() && active > 0 && !dropping
      modifies this`more, this`current, this`out
      ensures Valid() && View() == old(View()).(q := Fetched(old(View()).q, frame.more))
      ensures var p := old(pipes.items[current]);
              var q := Write(old(out)[p], frame, frame.more);
              out == old(out)[p := if frame.more then q else Flush(q)]
    {
      var p := pipes.items[current];
      FetchedDistance(View().q, frame.more, current);
      out := out[p := Write(out[p], frame, frame.more)];
      more := frame.more;
      if !more {
        out := out[p := Flush(out[p])];
        Advance();
      }
    }

    /** The turn of the next active pipe. */
    method Advance()
      requires current < active
      modifies this`current
      ensures current == (old(current) + 1) % active < active
    {
      current := current + 1;
      if current >= active { current := 0; }
    }

    method HasOut(ready: set<Pipe>) returns (found: bool)
      requires Valid()
      modifies this`active, this`current, pipes
      ensures Valid()
      ensures if more then found && View() == old(View())
              else View() == old(View()).(q := Seek(old(View()).q, ready)) && found == (active > 0)
      ensures found <==> more || old(Front(pipes.items, active)) * ready != {}
    {
      if more { return true; }
      SeekFinds(View().q, ready);
      while active > 0
        invariant Valid() && !more
        invariant Seek(View().q, ready) == Seek(old(View()).q, ready)
        decreases active
      {
        if pipes.items[current] in ready { return true; }
        Deactivate();
      }
      return false;
    }
  }

  function AfterTerminated(b: Balancer, i: nat): Balancer
    requires i < |b.q.items| && b.q.active <= |b.q.items|
  {
    Balancer(Removed(b.q, i), b.dropping || (i == b.q.current && b.q.more))
  }

  /**
   After a rollback the balancer drops the rest of the message, so that a refused frame that is
   offered again is dropped too. Only if it was the last one, the balancer has forgotten the message
   and takes the frame as a message of its own as soon as a pipe accepts it.
   */
  lemma RefusedFrameIsForgotten(b: Balancer, frame: Frame, accepts: set<Pipe>, later: set<Pipe>)
    requires b.q.Ok() && b.q.more && !b.dropping && b.q.active > 0 && b.q.items[b.q.current] !in accepts
    ensures var (c, o) := AfterSend(b, frame, accepts);
            && o == RolledBack && c.q.Ok() && !c.q.more && c.dropping == frame.more
            && (AfterSend(c, frame, later).1.Sent? <==> !frame.more && Front(b.q.items, b.q.active) * later != {})
            && (frame.more ==> AfterSend(c, frame, later).1 == Dropped)
  {
    SeekFinds(b.q.(more := false), later);
  }
}
