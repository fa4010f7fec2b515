/** Load balancing is fair: a pipe that accepts messages gets one before any other gets many. */
module LoadBalancerTurns {
  import opened Bytes
  import opened Sequences
  import opened PipeArray
  import opened Frames
  import opened FairQueue
  import opened LoadBalancer

  /** Steps over a fixed set of pipes. */
  datatype Call = Activate(i: nat) | HasOut(ready: set<Pipe>) | Send(frame: Frame, accepts: set<Pipe>)

  ghost predicate Good(b: Balancer) {
    b.q.Ok() && (b.q.more && !b.dropping ==> b.q.active > 0)
  }

  /** What a step leaves; an impossible step changes nothing. */
  ghost function After(b: Balancer, call: Call): Balancer {
    if !Good(b) then b
    else
      match call
      case Activate(i) => if b.q.active <= i < |b.q.items| then b.(q := Activated(b.q, b.q.items[i], i)) else b
      case HasOut(ready) => if b.q.more then b else b.(q := Seek(b.q, ready))
      case Send(frame, accepts) => AfterSend(b, frame, accepts).0
  }

  /** The pipe that gets the last part of a message. */
  ghost function Completes(b: Balancer, call: Call): Option<Pipe> {
    if !Good(b) || !call.Send? || call.frame.more then None
    else
      var o := AfterSend(b, call.frame, call.accepts).1;
      if o.Sent? then Some(o.to) else None
  }

  /** The pipes that got messages, in order. */
  ghost function Served(b: Balancer, calls: seq<Call>): seq<Pipe>
    decreases |calls|
  {
    if calls == [] then []
    else
      (if Completes(b, calls[0]).Some? then [Completes(b, calls[0]).value] else [])
        + Served(After(b, calls[0]), calls[1..])
  }

  /** The pipe can always be written to. */
  ghost predicate Accepts(call: Call, p: Pipe) {
    match call
    case Activate(i) => true
    case HasOut(ready) => p in ready
    case Send(frame, accepts) => p in accepts
  }

  lemma SendTurn(b: Balancer, frame: Frame, accepts: set<Pipe>, i: nat) returns (j: nat)
    requires Good(b) && i < b.q.active && b.q.items[i] in accepts
    requires Completes(b, Send(frame, accepts)) != Some(b.q.items[i])
    ensures var r, done := After(b, Send(frame, accepts)), Completes(b, Send(frame, accepts));
            && Good(r) && |r.q.items| == |b.q.items| && j < r.q.active && r.q.items[j] == b.q.items[i]
            && Distance(r.q, j) + (if done.Some? then 1 else 0) <= Distance(b.q, i)
  {
    j := i;
    SendFinds(b, frame, accepts);
    if !b.dropping && b.q.NextPart(accepts) {
      j := SeekDistance(b.q, accepts, i);
      FetchedDistance(Seek(b.q, accepts), frame.more, j);
    }
  }

  lemma Turn(b: Balancer, call: Call, i: nat) returns (j: nat)
    requires Good(b) && i < b.q.active && Accepts(call, b.q.items[i]) && Completes(b, call) != Some(b.q.items[i])
    ensures var r, done := After(b, call), Completes(b, call);
            && Good(r) && |r.q.items| == |b.q.items| && j < r.q.active && r.q.items[j] == b.q.items[i]
            && Distance(r.q, j) + (if done.Some? then 1 else 0) <= Distance(b.q, i)
  {
    j := i;
    match call
    case Activate(k) => if b.q.active <= k < |b.q.items| { SwappedDistinct(b.q.items, k, b.q.active); }
    case HasOut(ready) => if !b.q.more { j := SeekDistance(b.q, ready, i); }
    case Send(frame, accepts) => j := SendTurn(b, frame, accepts, i);
  }

  lemma {:induction false} ServedDistance(b: Balancer, calls: seq<Call>, i: nat)
    requires Good(b) && i < b.q.active && forall call :: call in calls ==> Accepts(call, b.q.items[i])
    requires b.q.items[i] !in Served(b, calls)
    ensures |Served(b, calls)| <= Distance(b.q, i)
    decreases |calls|
  {
    if calls != [] {
      var p, rest := b.q.items[i], Served(After(b, calls[0]), calls[1..]);
      assert Completes(b, calls[0]).Some? ==> Served(b, calls)[0] == Completes(b, calls[0]).value;
      var j := Turn(b, calls[0], i);
      assert forall x :: x in rest ==> x in Served(b, calls);
      ServedDistance(After(b, calls[0]), calls[1..], j);
    }
  }

  /**
   An active pipe that always accepts is passed over by at most n - 1 messages before it gets one,
   whatever other pipes refuse and whatever is rolled back or dropped in between.
   */
  lemma BoundedBypass(b: Balancer, calls: seq<Call>, p: Pipe)
    requires Good(b) && p in Front(b.q.items, b.q.active) && forall call :: call in calls ==> Accepts(call, p)
    requires p !in Served(b, calls)
    ensures |Served(b, calls)| <= |b.q.items| - 1
  {
    var i :| 0 <= i < b.q.active && b.q.items[i] == p;
    ServedDistance(b, calls, i);
  }
}
