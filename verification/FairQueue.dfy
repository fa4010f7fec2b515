/**
 `fq_t`: fair queueing over the inbound pipes. The active pipes stand at the front of the array and
 are read in turn; a pipe with nothing to read is swapped behind them. What a `read` finds is
 decided outside: `frames` tells which pipes have a frame now and whether more parts follow it.
 */
module FairQueue {
  import opened Bytes
  import opened Sequences
  import opened PipeArray

  datatype Fair = Fair(items: seq<Pipe>, active: nat, current: nat, more: bool)
  {
    ghost predicate Ok() {
      && Distinct(items) && active <= |items|
      && (current < active || current == 0)
    }

    /** Reading goes on where it should: no message is open, or no pipe is active, or the one at the cursor is ready. */
    predicate NextPart(ready: set<Pipe>)
      requires active <= |items| && (current < active || current == 0)
    {
      !more || active == 0 || items[current] in ready
    }
  }

  /** The pipe at the cursor has nothing to read: the last active pipe takes its place. */
  function Deactivated(q: Fair): Fair
    requires 0 < q.active <= |q.items| && q.current < |q.items|
  {
    var a := q.active - 1;
    q.(active := a, items := Swapped(q.items, q.current, a), current := if q.current == a then 0 else q.current)
  }

  lemma DeactivatedKeeps(q: Fair)
    requires q.Ok() && q.active > 0 && !q.more
    ensures Deactivated(q).Ok() && |Deactivated(q).items| == |q.items|
    ensures Front(Deactivated(q).items, q.active - 1) == Front(q.items, q.active) - {q.items[q.current]}
    ensures Front(Deactivated(q).items, |q.items|) == Front(q.items, |q.items|)
  {
    Leaves(q.items, q.current, q.active);
    SwapAside(q.items, q.current, q.active - 1, |q.items|);
  }

  /** The loops of `recvpipe` and `has_in`: looks for an active pipe that is ready. */
  ghost function Seek(q: Fair, ready: set<Pipe>): (r: Fair)
    requires q.Ok() && q.NextPart(ready)
    ensures r.Ok() && |r.items| == |q.items| && r.more == q.more
    ensures r.active > 0 ==> r.items[r.current] in ready
    decreases q.active
  {
    if q.active == 0 || q.items[q.current] in ready then q
    else
      DeactivatedKeeps(q);
      Seek(Deactivated(q), ready)
  }

  /** Exactly ready pipes are never set aside, and a ready pipe is found if there is one. */
  lemma {:induction false} SeekFinds(q: Fair, ready: set<Pipe>)
    requires q.Ok() && q.NextPart(ready)
    ensures var r := Seek(q, ready);
            && Front(r.items, |r.items|) == Front(q.items, |q.items|)
            && Front(r.items, r.active) <= Front(q.items, q.active)
            && Front(q.items, q.active) * ready <= Front(r.items, r.active)
            && (r.active == 0 <==> Front(q.items, q.active) * ready == {})
    decreases q.active
  {
    if q.active > 0 && q.items[q.current] !in ready {
      DeactivatedKeeps(q);
      SeekFinds(Deactivated(q), ready);
    } else if q.active > 0 {
      assert q.items[q.current] in Front(q.items, q.active) * ready;
    }
  }

  /** A frame was read from the pipe at the cursor. */
  function Fetched(q: Fair, more: bool): Fair
    requires q.active > 0
  {
    q.(more := more, current := if more then q.current else (q.current + 1) % q.active)
  }

  /** A frame came from a pipe, or no active pipe has any, or the assertion in the loop failed. */
  datatype Received = Got(p: Pipe) | Nothing | Aborted

  /** The whole of `recvpipe`. */
  ghost function AfterRecv(q: Fair, frames: map<Pipe, bool>): (Fair, Received)
    requires q.Ok()
  {
    if !q.NextPart(frames.Keys) then (q, Aborted)
    else
      var r := Seek(q, frames.Keys);
      if r.active == 0 then (r, Nothing)
      else (Fetched(r, frames[r.items[r.current]]), Got(r.items[r.current]))
  }

  /** While the assertion holds a frame is read exactly if an active pipe has one, and from such a pipe. */
  lemma RecvFinds(q: Fair, frames: map<Pipe, bool>)
    requires q.Ok() && q.NextPart(frames.Keys)
    ensures var (r, from), ready := AfterRecv(q, frames), Front(q.items, q.active) * frames.Keys;
            && from != Aborted && (from.Got? <==> ready != {})
            && (from.Got? ==> from.p in ready && r.more == frames[from.p])
            && (!from.Got? ==> r.more == q.more && r.active == 0)
  {
    SeekFinds(q, frames.Keys);
    var r := Seek(q, frames.Keys);
    if r.active > 0 { assert r.items[r.current] in Front(r.items, r.active); }
  }

  function Activated(q: Fair, p: Pipe, i: nat): Fair
    requires i < |q.items| && q.active < |q.items|
  {
    q.(items := Swapped(q.items, i, q.active), active := q.active + 1)
  }

  lemma {:induction false} SeekItems(q: Fair, ready: set<Pipe>)
    requires q.Ok() && !q.more
    ensures forall p :: p in Seek(q, ready).items ==> p in q.items
    decreases q.active
  {
    if q.active > 0 && q.items[q.current] !in ready {
      DeactivatedKeeps(q);
      SeekItems(Deactivated(q), ready);
    }
  }

  function AfterAttach(q: Fair, p: Pipe): Fair
    requires q.active <= |q.items|
  {
    q.(items := Swapped(q.items + [p], |q.items|, q.active), active := q.active + 1)
  }

  lemma AttachKeeps(q: Fair, p: Pipe)
    requires q.Ok() && p !in q.items
    ensures AfterAttach(q, p).Ok()
    ensures Front(AfterAttach(q, p).items, q.active + 1) == Front(q.items, q.active) + {p}
    ensures Front(AfterAttach(q, p).items, |q.items| + 1) == Front(q.items, |q.items|) + {p}
    ensures forall x :: x in AfterAttach(q, p).items ==> x == p || x in q.items
  {
    Appended(q.items, p, q.active);
    Appended(q.items, p, |q.items|);
    Joins(q.items + [p], |q.items|, q.active);
    SwapAside(q.items + [p], |q.items|, q.active, |q.items| + 1);
  }

  /** The pipe at place `i` goes away. */
  function Removed(q: Fair, i: nat): Fair
    requires i < |q.items| && q.active <= |q.items|
  {
    if i < q.active then
      var a := q.active - 1;
      q.(active := a, items := Erased(Swapped(q.items, i, a), a), current := if q.current == a then 0 else q.current)
    else q.(items := Erased(q.items, i))
  }

  lemma RemovedKeeps(q: Fair, i: nat)
    requires q.Ok() && i < |q.items|
    ensures var r := Removed(q, i);
            && r.Ok() && Front(r.items, r.active) == Front(q.items, q.active) - {q.items[i]}
            && Front(r.items, |r.items|) == Front(q.items, |q.items|) - {q.items[i]}
            && (forall x :: x in r.items ==> x in q.items && x != q.items[i])
            && (i < q.active && i != q.current ==> r.active > 0)
  {
    if i < q.active {
      RemovedFronts(q.items, i, q.active);
    } else {
      ErasedFront(q.items, i, q.active);
    }
    var r := Removed(q, i);
    forall x | x in r.items ensures x in Front(r.items, |r.items|) { }
  }

  /** The item at `i` is swapped to the end of the front part and erased there. */
  lemma RemovedFronts(s: seq<Pipe>, i: nat, a: nat)
    requires Distinct(s) && i < a <= |s|
    ensures var r := Erased(Swapped(s, i, a - 1), a - 1);
            Distinct(r) && Front(r, a - 1) == Front(s, a) - {s[i]} && Front(r, |s| - 1) == Front(s, |s|) - {s[i]}
  {
    Leaves(s, i, a);
    SwapAside(s, i, a - 1, |s|);
    ErasedFront(Swapped(s, i, a - 1), a - 1, a - 1);
  }

  /** The cursor stands on the last active pipe, and another one goes that is active and not the first. */
  predicate Jumps(q: Fair, i: nat) {
    i != q.current && i < q.active && q.current == q.active - 1 && i != 0
  }

  /**
   When a pipe goes away, the cursor stays with its pipe unless that is the one that goes, or the
   cursor jumps to the first pipe.
   */
  lemma CursorStaysExactly(q: Fair, i: nat)
    requires q.Ok() && q.active > 0 && i < |q.items|
    ensures var r := Removed(q, i);
            && r.Ok() && (r.active == 0 <==> q.active == 1 && i == 0)
            && (r.active > 0 && r.items[r.current] == q.items[q.current] <==>
                i != q.current && !Jumps(q, i))
  {
    RemovedKeeps(q, i);
  }

  /** A message of pipe 3 goes on with the parts of pipe 1 after pipe 2 went away. */
  lemma CursorCanJump()
    ensures var q := Fair([1, 2, 3], 3, 2, true);
            q.Ok() && Removed(q, 1).items[Removed(q, 1).current] == 1 != q.items[q.current]
  {
    assert Swapped([1, 2, 3], 1, 2) == [1, 3, 2];
  }

  // ---------------------------------------------------------------- the object

  class Fq {
    const pipes: Array
    var active: nat
    var current: nat
    var more: bool
    var lastIn: Option<Pipe>

    ghost function View(): Fair
      reads this, pipes
    {
      Fair(pipes.items, active, current, more)
    }

    ghost predicate Valid()
      reads this, pipes
    {
      pipes.Valid() && View().Ok()
    }

    constructor ()
      ensures Valid() && View() == Fair([], 0, 0, false) && lastIn == None && fresh(pipes)
    {
      pipes := new Array();
      active, current, more, lastIn := 0, 0, false, None;
    }

    method Attach(p: Pipe)
      requires Valid() && p !in pipes.items
      modifies this`active, pipes
      ensures Valid() && View() == AfterAttach(old(View()), p)
      ensures Front(pipes.items, active) == old(Front(pipes.items, active)) + {p}
      ensures Front(pipes.items, |pipes.items|) == old(Front(pipes.items, |pipes.items|)) + {p}
      ensures old(current < active) ==> pipes.items[current] == old(pipes.items[current])
    {
      AttachKeeps(View(), p);
      pipes.PushBack(p);
      pipes.Swap(active, |pipes.items| - 1);
      active := active + 1;
    }

    /** A pipe that was set aside has something to read again. */
    method Activate(p: Pipe)
      requires Valid() && p in pipes.items && p !in Front(pipes.items, active)
      modifies this`active, pipes
      ensures Valid()
      ensures exists i :: 0 <= i < |old(pipes.items)| && old(pipes.items)[i] == p
                          && View() == Activated(old(View()), p, i)
      ensures Front(pipes.items, active) == old(Front(pipes.items, active)) + {p}
    {
      var i := pipes.Index(p);
      assert i >= active;
      Joins(pipes.items, i, active);
      pipes.Swap(i, active);
      active := active + 1;
    }

    method PipeTerminated(p: Pipe)
      requires Valid() && p in pipes.items
      modifies this, pipes
      ensures Valid()
      ensures exists i :: 0 <= i < |old(pipes.items)| && old(pipes.items)[i] == p && View() == Removed(old(View()), i)
      ensures Front(pipes.items, active) == old(Front(pipes.items, active)) - {p}
      ensures Front(pipes.items, |pipes.items|) == old(Front(pipes.items, |pipes.items|)) - {p}
      ensures lastIn == if old(lastIn) == Some(p) then None else old(lastIn)
    {
      var i := pipes.Index(p);
      RemovedKeeps(View(), i);
      if i < active {
        active := active - 1;
        pipes.Swap(i, active);
        if current == active { current := 0; }
      }
      ghost var k := if i < old(active) then active else i;
      assert pipes.items[k] == p;
      pipes.AllDistinct();
      ghost var j := pipes.Erase(p);
      assert j == k;
      assert View() == Removed(old(View()), i);
      if lastIn == Some(p) { lastIn := None; }
    }

    /** Sets the pipe at the cursor aside. */
    method Deactivate()
      requires Valid() && active > 0 && !more
      modifies this`active, this`current, pipes
      ensures Valid() && View() == Deactivated(old(View()))
    {
      DeactivatedKeeps(View());
      active := active - 1;
      pipes.Swap(current, active);
      if current == active { current := 0; }
    }

    /**
     Reads one frame. In the middle of a message the source asserts that the next part is there. A
     pipe publishes whole messages, but one that is terminated without delay gives out nothing more,
     and then the assertion fails.
     */
    method Recv(frames: map<Pipe, bool>) returns (from: Received)
      requires Valid()
      modifies this, pipes
      ensures Valid() && (View(), from) == AfterRecv(old(View()), frames)
      ensures from == Aborted <==> old(more && active > 0 && pipes.items[current] !in frames)
      ensures from.Got? <==> from != Aborted && old(Front(pipes.items, active)) * frames.Keys != {}
      ensures from.Got? ==> from.p in old(Front(pipes.items, active)) * frames.Keys && more == frames[from.p]
      ensures lastIn == if from.Got? && !frames[from.p] then Some(from.p) else old(lastIn)
    {
      if View().NextPart(frames.Keys) { RecvFinds(View(), frames); }
      while active > 0
        invariant Valid() && lastIn == old(lastIn)
        invariant View().NextPart(frames.Keys) <==> old(View()).NextPart(frames.Keys)
        invariant if old(View()).NextPart(frames.Keys) then Seek(View(), frames.Keys) == Seek(old(View()), frames.Keys)
                  else View() == old(View())
        decreases active
      {
        var p := pipes.items[current];
        if p in frames {
          more := frames[p];
          if !more {
            lastIn := Some(p);
            current := (current + 1) % active;
          }
          return Got(p);
        }
        if more { return Aborted; }      // zmq_assert (!_more)
        Deactivate();
      }
      return Nothing;
    }

    method HasIn(ready: set<Pipe>) returns (found: bool)
      requires Valid()
      modifies this`active, this`current, pipes
      ensures Valid() && more == old(more)
      ensures if more then found && View() == old(View())
              else View() == Seek(old(View()), ready) && found == (active > 0)
      ensures found <==> more || old(Front(pipes.items, active)) * ready != {}
    {
      if more { return true; }
      SeekFinds(View(), ready);
      while active > 0
        invariant Valid() && !more
        invariant Seek(View(), ready) == Seek(old(View()), ready)
        decreases active
      {
        if pipes.items[current] in ready { return true; }
        Deactivate();
      }
      return false;
    }
  }

  // ---------------------------------------------------------------- bounded bypass

  /** Steps over a fixed set of pipes. */
  datatype Op = OpActivate(i: nat) | OpHasIn(ready: set<Pipe>) | OpRecv(frames: map<Pipe, bool>)

  ghost predicate Allowed(q: Fair, op: Op) {
    q.Ok() &&
    match op
    case OpActivate(i) => q.active <= i < |q.items|
    case OpHasIn(ready) => true
    case OpRecv(frames) => true
  }

  /** What a step leaves; an impossible step changes nothing. */
  ghost function Apply(q: Fair, op: Op): Fair {
    if !Allowed(q, op) then q
    else
      match op
      case OpActivate(i) => Activated(q, q.items[i], i)
      case OpHasIn(ready) => if q.more then q else Seek(q, ready)
      case OpRecv(frames) => AfterRecv(q, frames).0
  }

  /** The pipe whose message a step completes. */
  ghost function Completes(q: Fair, op: Op): Option<Pipe> {
    if !Allowed(q, op) || !op.OpRecv? then None
    else
      var from := AfterRecv(q, op.frames).1;
      if from.Got? && !op.frames[from.p] then Some(from.p) else None
  }

  /** The pipes whose messages were completed during a run, in order. */
  ghost function Served(q: Fair, ops: seq<Op>): seq<Pipe>
    decreases |ops|
  {
    if ops == [] then []
    else (if Completes(q, ops[0]).Some? then [Completes(q, ops[0]).value] else []) + Served(Apply(q, ops[0]), ops[1..])
  }

  /** The pipe always has a message: every look at it finds one. */
  ghost predicate Offers(op: Op, p: Pipe) {
    match op
    case OpActivate(i) => true
    case OpHasIn(ready) => p in ready
    case OpRecv(frames) => p in frames
  }

  /** Places from the cursor to place `i`, going round the whole array, passive pipes included. */
  function Distance(q: Fair, i: nat): int {
    if i >= q.current then i - q.current else i - q.current + |q.items|
  }

  lemma DeactivateDistance(q: Fair, i: nat) returns (j: nat)
    requires q.Ok() && i < q.active && i != q.current && !q.more
    ensures var r := Deactivated(q); j < r.active && r.items[j] == q.items[i] && Distance(r, j) <= Distance(q, i)
  {
    j := if i == q.active - 1 then q.current else i;
  }

  lemma {:induction false} SeekDistance(q: Fair, ready: set<Pipe>, i: nat) returns (j: nat)
    requires q.Ok() && q.NextPart(ready) && i < q.active && q.items[i] in ready
    ensures var r := Seek(q, ready); j < r.active && r.items[j] == q.items[i] && Distance(r, j) <= Distance(q, i)
    decreases q.active
  {
    if q.items[q.current] in ready {
      j := i;
    } else {
      j := DeactivateDistance(q, i);
      DeactivatedKeeps(q);
      j := SeekDistance(Deactivated(q), ready, j);
    }
  }

  /** Going on to the next pipe brings the cursor one place nearer to any other pipe. */
  lemma FetchedDistance(q: Fair, more: bool, i: nat)
    requires q.Ok() && i < q.active
    ensures Fetched(q, more).Ok()
    ensures more ==> Distance(Fetched(q, more), i) == Distance(q, i)
    ensures !more && i != q.current ==> Distance(Fetched(q, more), i) < Distance(q, i)
  {
    NextTurn(q.current, q.active);
  }

  lemma NextTurn(k: nat, n: nat)
    requires k < n
    ensures (k + 1) % n == if k + 1 == n then 0 else k + 1
  {
    if k + 1 == n { assert n % n == 0; }
  }

  /** No step takes the cursor away from a waiting pipe, and every message of another pipe brings it nearer. */
  lemma StepDistance(q: Fair, op: Op, i: nat) returns (j: nat)
    requires q.Ok() && i < q.active && Offers(op, q.items[i]) && Completes(q, op) != Some(q.items[i])
    ensures var r := Apply(q, op);
            && r.Ok() && |r.items| == |q.items| && j < r.active && r.items[j] == q.items[i]
            && Distance(r, j) + (if Completes(q, op).Some? then 1 else 0) <= Distance(q, i)
  {
    j := i;
    if Allowed(q, op) {
      match op
      case OpActivate(k) => SwappedDistinct(q.items, k, q.active);
      case OpHasIn(ready) => if !q.more { j := SeekDistance(q, ready, i); }
      case OpRecv(frames) =>
        if q.NextPart(frames.Keys) {
          j := SeekDistance(q, frames.Keys, i);
          var r := Seek(q, frames.Keys);
          FetchedDistance(r, frames[r.items[r.current]], j);
        }
    }
  }

  lemma {:induction false} ServedDistance(q: Fair, ops: seq<Op>, i: nat)
    requires q.Ok() && i < q.active && forall op :: op in ops ==> Offers(op, q.items[i])
    requires q.items[i] !in Served(q, ops)
    ensures |Served(q, ops)| <= Distance(q, i)
    decreases |ops|
  {
    if ops != [] {
      var p := q.items[i];
      assert Completes(q, ops[0]).Some? ==> Served(q, ops)[0] == Completes(q, ops[0]).value;
      var j := StepDistance(q, ops[0], i);
      assert forall x :: x in Served(Apply(q, ops[0]), ops[1..]) ==> x in Served(q, ops);
      ServedDistance(Apply(q, ops[0]), ops[1..], j);
    }
  }

  /**
   A pipe that always has a message waits for at most n - 1 messages of the other pipes, whatever is
   deactivated and reactivated in between.
   */
  lemma BoundedBypass(q: Fair, ops: seq<Op>, p: Pipe)
    requires q.Ok() && p in Front(q.items, q.active) && forall op :: op in ops ==> Offers(op, p)
    requires p !in Served(q, ops)
    ensures |Served(q, ops)| <= |q.items| - 1
  {
    var i :| 0 <= i < q.active && q.items[i] == p;
    ServedDistance(q, ops, i);
  }

  // ---------------------------------------------------------------- whole messages

  /** When the assertion in `recvpipe` holds: for all states, and whatever the pipes have. */
  lemma AssertionHoldsExactly(q: Fair, frames: map<Pipe, bool>)
    requires q.Ok()
    ensures AfterRecv(q, frames).1 != Aborted <==> !q.more || q.active == 0 || q.items[q.current] in frames
  {
  }

  /** The pipe of an open message was terminated after its first part, and gives out nothing more. */
  lemma AssertionCanFail()
    ensures var q := Fair([1], 1, 0, true); q.Ok() && AfterRecv(q, map[]).1 == Aborted
  {
  }

  /**
   While no pipe goes away, the next part of an open message comes from the pipe at the cursor or the
   assertion fails; no step moves the cursor before the message is complete.
   */
  lemma MessageStaysAtCursor(q: Fair, op: Op)
    requires q.Ok() && q.more && q.active > 0 && Allowed(q, op)
    ensures var r := Apply(q, op);
            && r.Ok() && r.active > 0
            && (r.more ==> r.items[r.current] == q.items[q.current])
            && (!r.more ==> Completes(q, op) == Some(q.items[q.current]))
            && (op.OpRecv? ==> AfterRecv(q, op.frames).1 ==
                               if q.items[q.current] in op.frames then Got(q.items[q.current]) else Aborted)
  {
    if op.OpActivate? { SwappedDistinct(q.items, op.i, q.active); }
    if op.OpRecv? && q.NextPart(op.frames.Keys) { FetchedDistance(q, op.frames[q.items[q.current]], q.current); }
  }

  /**
   When a pipe goes away in the middle of a message, the next part that is read belongs to the message
   exactly if its pipe was neither removed nor jumped over: `_more` stays set in either case.
   */
  lemma OpenMessageContinuesExactly(q: Fair, i: nat, frames: map<Pipe, bool>)
    requires q.Ok() && q.more && q.active > 0 && i < |q.items|
    requires Removed(q, i).Ok() && AfterRecv(Removed(q, i), frames).1.Got?
    ensures AfterRecv(Removed(q, i), frames).1.p == q.items[q.current] <==>
              i != q.current && !Jumps(q, i)
  {
    CursorStaysExactly(q, i);
  }

  /** The pipe of an open message goes away; the frame of another pipe is taken as the rest of the message. */
  lemma OpenMessageCanChangePipe()
    ensures var q := Fair([1, 2], 2, 0, true);
            && q.Ok() && q.items[q.current] == 1
            && Removed(q, 0) == Fair([2], 1, 0, true)
            && AfterRecv(Removed(q, 0), map[2 := false]) == (Fair([2], 1, 0, false), Got(2))
  {
    assert Swapped([1, 2], 0, 1) == [2, 1] && [2, 1][..1] == [2];
    assert Removed(Fair([1, 2], 2, 0, true), 0) == Fair([2], 1, 0, true);
  }
}
