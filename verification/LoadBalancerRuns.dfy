/**
 Load balancing over whole runs: every message is published whole on one pipe or nowhere.
 */
module LoadBalancerRuns {
  import opened Bytes
  import opened Sequences
  import opened PipeArray
  import opened Queues
  import opened Frames
  import opened FairQueue
  import opened LoadBalancer

  /**
   The balancer, the queues, the parts of the current message taken so far, and the fate of every
   message before it. `used` holds every pipe that was ever attached.
   */
  datatype World = World(b: Balancer, out: Outbound, cur: seq<Frame>, fates: seq<Fate>, used: set<Pipe>)

  const Start := World(Balancer(Fair([], 0, 0, false), false), map[], [], [], {})

  datatype Event =
    | Attach(p: Pipe) | Activate(i: nat) | Terminate(i: nat)
    | HasOut(ready: set<Pipe>) | Send(frame: Frame, accepts: set<Pipe>)

  /** In the middle of a message a pipe may go away unless that makes the cursor jump. */
  predicate MayGo(b: Balancer, i: nat) {
    b.q.more && !b.dropping ==> !Jumps(b.q, i)
  }

  ghost predicate CanStep(w: World, e: Event) {
    && w.b.q.Ok() && (w.b.q.more && !w.b.dropping ==> w.b.q.active > 0)
    && (forall p :: p in w.b.q.items ==> p in w.out)
    && match e
       case Attach(p) => p !in w.used
       case Activate(i) => w.b.q.active <= i < |w.b.q.items|
       case Terminate(i) => i < |w.b.q.items|
       case HasOut(ready) => true
       case Send(frame, accepts) => true
  }

  /** The books after a frame was offered. */
  ghost function Booked(w: World, frame: Frame, o: Outcome): World {
    if o == Again then w
    else if frame.more then w.(cur := w.cur + [frame])
    else w.(cur := [], fates := w.fates + [Fate(w.cur + [frame], if o.Sent? then Some(o.to) else None)])
  }

  ghost function Do(w: World, e: Event): World {
    if !CanStep(w, e) then w
    else
      match e
      case Attach(p) =>
        w.(b := w.b.(q := AfterAttach(w.b.q, p)), out := w.out[p := Empty()], used := w.used + {p})
      case Activate(i) => w.(b := w.b.(q := Activated(w.b.q, w.b.q.items[i], i)))
      case Terminate(i) => w.(b := AfterTerminated(w.b, i), out := w.out - {w.b.q.items[i]})
      case HasOut(ready) => if w.b.q.more then w else w.(b := w.b.(q := Seek(w.b.q, ready)))
      case Send(frame, accepts) =>
        var r := AfterSend(w.b, frame, accepts);
        Booked(w, frame, r.1).(b := r.0, out := QueuesAfter(w.b, w.out, frame, accepts))
  }

  ghost function DoAll(es: seq<Event>): World {
    if es == [] then Start else Do(DoAll(es[..|es| - 1]), es[|es| - 1])
  }

  /** No pipe went away in the middle of a message that made the cursor jump. */
  ghost predicate Careful(es: seq<Event>) {
    es != [] ==>
      var w, e := DoAll(es[..|es| - 1]), es[|es| - 1];
      Careful(es[..|es| - 1]) && (e.Terminate? && e.i < |w.b.q.items| ==> MayGo(w.b, e.i))
  }

  /** The frames of all messages sent to `p`, message after message. */
  ghost function SentTo(fates: seq<Fate>, p: Pipe): seq<Frame> {
    if fates == [] then []
    else
      var last := fates[|fates| - 1];
      SentTo(fates[..|fates| - 1], p) + if last.pipe == Some(p) then last.frames else []
  }

  /** The frames that the pipe holds of the message being sent. */
  ghost function Open(w: World, p: Pipe): seq<Frame>
    requires w.b.q.Ok()
  {
    if w.b.q.more && !w.b.dropping && w.b.q.active > 0 && p == w.b.q.items[w.b.q.current] then w.cur else []
  }

  /** A pipe has the messages sent to it, whole and in order, and nothing else but the open message. */
  ghost predicate PipeOk(w: World, p: Pipe)
    requires w.b.q.Ok()
  {
    && p in w.out && p in w.used
    && w.out[p].complete == [] && w.out[p].Log() == SentTo(w.fates, p) && w.out[p].partial == Open(w, p)
  }

  ghost predicate Atomic(w: World) {
    && w.b.q.Ok() && (w.b.q.more && !w.b.dropping ==> w.b.q.active > 0)
    && (forall p {:trigger PipeOk(w, p)} :: p in w.b.q.items ==> PipeOk(w, p))
    && (if w.b.dropping then w.cur != [] else w.b.q.more <==> w.cur != []) && AllMore(w.cur)
    && (forall f :: f in w.fates ==> Whole(f.frames))
    && (forall f :: f in w.fates && f.pipe.Some? ==> f.pipe.value in w.used)
  }

  lemma {:induction false} NothingSent(fates: seq<Fate>, p: Pipe)
    requires forall f :: f in fates ==> f.pipe != Some(p)
    ensures SentTo(fates, p) == []
  {
    if fates != [] { NothingSent(fates[..|fates| - 1], p); }
  }

  lemma SentToAppend(fates: seq<Fate>, f: Fate, p: Pipe)
    ensures SentTo(fates + [f], p) == SentTo(fates, p) + if f.pipe == Some(p) then f.frames else []
  {
    assert (fates + [f])[..|fates|] == fates;
  }

  // ---------------------------------------------------------------- every step keeps messages whole

  /** The queues and the books stay, and so do the attached pipes and the place of the open message. */
  lemma CursorMoves(w: World, q: Fair)
    requires Atomic(w) && q.Ok() && q.more == w.b.q.more
    requires forall p :: p in q.items ==> p in w.b.q.items
    requires q.more && !w.b.dropping ==> q.active > 0 && q.items[q.current] == w.b.q.items[w.b.q.current]
    ensures Atomic(w.(b := w.b.(q := q)))
  {
    var v := w.(b := w.b.(q := q));
    forall p | p in q.items ensures PipeOk(v, p) { assert PipeOk(w, p); }
  }

  lemma ActivateKeeps(w: World, i: nat)
    requires Atomic(w) && w.b.q.active <= i < |w.b.q.items|
    ensures Atomic(Do(w, Activate(i)))
  {
    var q := w.b.q;
    Joins(q.items, i, q.active);
    assert CanStep(w, Activate(i)) by { AllQueued(w); }
    CursorMoves(w, Activated(q, q.items[i], i));
  }

  lemma AllQueued(w: World)
    requires Atomic(w)
    ensures forall p :: p in w.b.q.items ==> p in w.out
    ensures forall p :: p in Front(w.b.q.items, w.b.q.active) ==> p in w.out
  {
    forall p | p in w.b.q.items ensures p in w.out { assert PipeOk(w, p); }
  }

  lemma HasOutKeeps(w: World, ready: set<Pipe>)
    requires Atomic(w)
    ensures Atomic(Do(w, HasOut(ready)))
  {
    AllQueued(w);
    if !w.b.q.more {
      SeekItems(w.b.q, ready);
      CursorMoves(w, Seek(w.b.q, ready));
    }
  }

  lemma AttachKeepsWhole(w: World, p: Pipe)
    requires Atomic(w) && p !in w.used
    ensures Atomic(Do(w, Attach(p)))
  {
    AllQueued(w);
    forall x | x in w.b.q.items ensures x != p { assert PipeOk(w, x); }
    AttachKeeps(w.b.q, p);
    var v := Do(w, Attach(p));
    NothingSent(w.fates, p);
    forall x | x in v.b.q.items ensures PipeOk(v, x) {
      if x != p { assert PipeOk(w, x); }
    }
  }

  lemma TerminateKeeps(w: World, i: nat)
    requires Atomic(w) && i < |w.b.q.items| && MayGo(w.b, i)
    ensures Atomic(Do(w, Terminate(i)))
  {
    AllQueued(w);
    RemovedKeeps(w.b.q, i);
    var v, p := Do(w, Terminate(i)), w.b.q.items[i];
    if w.b.q.active > 0 && i != w.b.q.current { CursorStaysExactly(w.b.q, i); }
    forall x | x in v.b.q.items ensures PipeOk(v, x) { assert PipeOk(w, x); }
  }

  /** The books after a frame that no pipe took. */
  lemma NotSentBooks(w: World, frame: Frame, o: Outcome, p: Pipe)
    requires !o.Sent?
    ensures SentTo(Booked(w, frame, o).fates, p) == SentTo(w.fates, p)
  {
    SentToAppend(w.fates, Fate(w.cur + [frame], None), p);
  }

  lemma BookedWhole(w: World, frame: Frame, o: Outcome)
    requires AllMore(w.cur) && forall f :: f in w.fates ==> Whole(f.frames)
    ensures var v := Booked(w, frame, o); AllMore(v.cur) && forall f :: f in v.fates ==> Whole(f.frames)
    ensures Whole((w.cur + [frame])) <==> !frame.more
  {
    assert (w.cur + [frame])[..|w.cur|] == w.cur;
  }

  lemma DropKeeps(w: World, frame: Frame, accepts: set<Pipe>)
    requires Atomic(w) && w.b.dropping
    ensures Atomic(Do(w, Send(frame, accepts)))
  {
    AllQueued(w);
    var v := Do(w, Send(frame, accepts));
    BookedWhole(w, frame, Dropped);
    forall p | p in v.b.q.items ensures PipeOk(v, p) {
      assert PipeOk(w, p);
      NotSentBooks(w, frame, Dropped, p);
    }
  }

  lemma RollbackKeeps(w: World, frame: Frame, accepts: set<Pipe>)
    requires Atomic(w) && !w.b.dropping && w.b.q.more && w.b.q.items[w.b.q.current] !in accepts
    ensures Atomic(Do(w, Send(frame, accepts)))
  {
    AllQueued(w);
    var v, at := Do(w, Send(frame, accepts)), w.b.q.items[w.b.q.current];
    BookedWhole(w, frame, RolledBack);
    assert v.out == w.out[at := UnwriteAll(w.out[at])];
    forall p | p in v.b.q.items ensures PipeOk(v, p) {
      assert PipeOk(w, p);
      NotSentBooks(w, frame, RolledBack, p);
    }
  }

  lemma AgainKeeps(w: World, frame: Frame, accepts: set<Pipe>)
    requires Atomic(w) && !w.b.dropping && !w.b.q.more && Seek(w.b.q, accepts).active == 0
    ensures Atomic(Do(w, Send(frame, accepts)))
  {
    AllQueued(w);
    SeekItems(w.b.q, accepts);
    CursorMoves(w, Seek(w.b.q, accepts));
  }

  /** The pipe at the cursor takes a frame. */
  ghost function AfterPut(w: World, frame: Frame): World
    requires w.b.q.Ok() && w.b.q.active > 0 && w.b.q.items[w.b.q.current] in w.out
  {
    var p := w.b.q.items[w.b.q.current];
    var q := Write(w.out[p], frame, frame.more);
    Booked(w, frame, Sent(p)).(b := w.b.(q := Fetched(w.b.q, frame.more)),
                               out := w.out[p := if frame.more then q else Flush(q)])
  }

  /** The pipe has held the open message before. */
  lemma PutAtCursor(w: World, frame: Frame)
    requires Atomic(w) && !w.b.dropping && w.b.q.active > 0
    ensures var p := w.b.q.items[w.b.q.current];
            && p in w.out && w.out[p].partial == w.cur && AfterPut(w, frame).b.q.Ok() && PipeOk(AfterPut(w, frame), p)
  {
    var p := w.b.q.items[w.b.q.current];
    assert PipeOk(w, p);
    FetchedDistance(w.b.q, frame.more, w.b.q.current);
    SentToAppend(w.fates, Fate(w.cur + [frame], Some(p)), p);
    PutHere(w.out[p], w.cur, frame);
  }

  /** No other pipe has, and none changes. */
  lemma PutElsewhere(w: World, frame: Frame, x: Pipe)
    requires Atomic(w) && !w.b.dropping && w.b.q.active > 0 && w.b.q.items[w.b.q.current] in w.out
    requires x in w.b.q.items && x != w.b.q.items[w.b.q.current]
    ensures AfterPut(w, frame).b.q.Ok() && PipeOk(AfterPut(w, frame), x)
  {
    assert PipeOk(w, x);
    FetchedDistance(w.b.q, frame.more, w.b.q.current);
    SentToAppend(w.fates, Fate(w.cur + [frame], Some(w.b.q.items[w.b.q.current])), x);
  }

  lemma PutEverywhere(w: World, frame: Frame)
    requires Atomic(w) && !w.b.dropping && w.b.q.active > 0 && w.b.q.items[w.b.q.current] in w.out
    ensures var v := AfterPut(w, frame);
            && v.b.q.Ok() && v.b.q.items == w.b.q.items
            && forall x {:trigger PipeOk(v, x)} :: x in v.b.q.items ==> PipeOk(v, x)
  {
    PutAtCursor(w, frame);
    var v := AfterPut(w, frame);
    forall x | x in v.b.q.items ensures PipeOk(v, x) {
      if x != w.b.q.items[w.b.q.current] { PutElsewhere(w, frame, x); }
    }
  }

  lemma PutKeeps(w: World, frame: Frame)
    requires Atomic(w) && !w.b.dropping && w.b.q.active > 0
    ensures var p := w.b.q.items[w.b.q.current];
            p in w.out && w.out[p].partial == w.cur && Atomic(AfterPut(w, frame))
  {
    var p := w.b.q.items[w.b.q.current];
    PutAtCursor(w, frame);
    PutEverywhere(w, frame);
    BookedWhole(w, frame, Sent(p));
    assert PipeOk(w, p);
  }

  lemma PutHere(q: Queue<Frame>, cur: seq<Frame>, frame: Frame)
    requires q.complete == [] && q.partial == cur
    ensures frame.more ==> var r := Write(q, frame, true);
              r.complete == [] && r.Log() == q.Log() && r.partial == cur + [frame]
    ensures !frame.more ==> var r := Flush(Write(q, frame, false));
              && r.complete == [] && r.Log() == q.Log() + (cur + [frame]) && r.partial == []
              && r.published == q.published + (cur + [frame])
  {
  }

  lemma SendKeeps(w: World, frame: Frame, accepts: set<Pipe>)
    requires Atomic(w)
    ensures Atomic(Do(w, Send(frame, accepts)))
  {
    AllQueued(w);
    var q := w.b.q;
    if w.b.dropping {
      DropKeeps(w, frame, accepts);
    } else if q.more && q.items[q.current] !in accepts {
      RollbackKeeps(w, frame, accepts);
    } else if Seek(q, accepts).active == 0 {
      AgainKeeps(w, frame, accepts);
    } else {
      if !q.more { SeekItems(q, accepts); }
      var r := Seek(q, accepts);
      CursorMoves(w, r);
      var u := w.(b := w.b.(q := r));
      PutKeeps(u, frame);
    }
  }

  lemma StepKeepsWhole(w: World, e: Event)
    requires Atomic(w) && (e.Terminate? && e.i < |w.b.q.items| ==> MayGo(w.b, e.i))
    ensures Atomic(Do(w, e))
  {
    if CanStep(w, e) {
      match e
      case Attach(p) => AttachKeepsWhole(w, p);
      case Activate(i) => ActivateKeeps(w, i);
      case Terminate(i) => TerminateKeeps(w, i);
      case HasOut(ready) => HasOutKeeps(w, ready);
      case Send(frame, accepts) => SendKeeps(w, frame, accepts);
    }
  }

  lemma {:induction false} RunKeepsWhole(es: seq<Event>)
    requires Careful(es)
    ensures Atomic(DoAll(es))
  {
    if es != [] {
      RunKeepsWhole(es[..|es| - 1]);
      StepKeepsWhole(DoAll(es[..|es| - 1]), es[|es| - 1]);
    }
  }

  /** A pipe that goes away leaves messages whole exactly if it does not make the cursor jump. */
  lemma TerminateKeepsExactly(w: World, i: nat)
    requires Atomic(w) && i < |w.b.q.items|
    ensures Atomic(Do(w, Terminate(i))) <==> MayGo(w.b, i)
  {
    if MayGo(w.b, i) {
      TerminateKeeps(w, i);
    } else {
      AllQueued(w);
      RemovedKeeps(w.b.q, i);
      CursorStaysExactly(w.b.q, i);
      var v, p := Do(w, Terminate(i)), w.b.q.items[w.b.q.current];
      assert PipeOk(w, p);
      StillThere(w.b.q, i, w.b.q.current);
      assert v.out[p].partial == w.cur != Open(v, p);
      assert !PipeOk(v, p);
    }
  }

  lemma StillThere(q: Fair, i: nat, k: nat)
    requires q.Ok() && i < |q.items| && k < |q.items| && k != i
    ensures q.items[k] in Removed(q, i).items
  {
    RemovedKeeps(q, i);
    var r := Removed(q, i);
    assert q.items[k] in Front(q.items, |q.items|) - {q.items[i]};
  }

  /** Messages are whole at every point of the run. */
  ghost predicate AlwaysWhole(es: seq<Event>) {
    Atomic(DoAll(es)) && (es != [] ==> AlwaysWhole(es[..|es| - 1]))
  }

  /** A run keeps all messages whole, at every point, exactly if all its removals are of that kind. */
  lemma {:induction false} RunIsWholeExactly(es: seq<Event>)
    ensures AlwaysWhole(es) <==> Careful(es)
  {
    if es == [] {
      assert DoAll([]) == Start;
    } else {
      var front := es[..|es| - 1];
      RunIsWholeExactly(front);
      if Careful(front) {
        RunKeepsWhole(front);
        LastStepExactly(DoAll(front), es[|es| - 1]);
      }
    }
  }

  lemma LastStepExactly(w: World, e: Event)
    requires Atomic(w)
    ensures Atomic(Do(w, e)) <==> (e.Terminate? && e.i < |w.b.q.items| ==> MayGo(w.b, e.i))
  {
    if e.Terminate? && e.i < |w.b.q.items| { TerminateKeepsExactly(w, e.i); } else { StepKeepsWhole(w, e); }
  }

  // ---------------------------------------------------------------- what a user can rely on

  /**
   Whatever a pipe has published is the messages sent to it, each whole and in order. A message that
   was dropped or rolled back was sent to no pipe, so none of its frames is among them.
   */
  lemma PublishedWhole(es: seq<Event>, p: Pipe)
    requires Careful(es) && p in DoAll(es).b.q.items
    ensures var w := DoAll(es);
            && p in w.out && w.out[p].got + w.out[p].published == SentTo(w.fates, p)
            && w.out[p].complete == []
            && forall f :: f in w.fates ==> Whole(f.frames)
  {
    RunKeepsWhole(es);
    var w := DoAll(es);
    assert PipeOk(w, p);
    assert w.out[p].Log() == w.out[p].got + w.out[p].published;
  }

  /** The frames that the user sent, but for those that came back with EAGAIN between messages. */
  ghost function FramesTaken(es: seq<Event>): seq<Frame> {
    if es == [] then []
    else
      var prev, e := es[..|es| - 1], es[|es| - 1];
      var w := DoAll(prev);
      FramesTaken(prev) +
      if e.Send? && CanStep(w, e) && AfterSend(w.b, e.frame, e.accepts).1 != Again then [e.frame] else []
  }

  function FramesOf(fates: seq<Fate>): seq<Frame> {
    if fates == [] then [] else FramesOf(fates[..|fates| - 1]) + fates[|fates| - 1].frames
  }

  /** Every frame belongs to one message of the books, in order, or to the message being sent. */
  lemma {:induction false} EveryFrameIsBooked(es: seq<Event>)
    ensures FramesOf(DoAll(es).fates) + DoAll(es).cur == FramesTaken(es)
  {
    if es != [] {
      var prev, e := es[..|es| - 1], es[|es| - 1];
      EveryFrameIsBooked(prev);
      FrameIsBooked(DoAll(prev), e);
    }
  }

  lemma FrameIsBooked(w: World, e: Event)
    ensures var v := Do(w, e);
            FramesOf(v.fates) + v.cur == FramesOf(w.fates) + w.cur +
              if e.Send? && CanStep(w, e) && AfterSend(w.b, e.frame, e.accepts).1 != Again then [e.frame] else []
  {
    if e.Send? && CanStep(w, e) {
      var o := AfterSend(w.b, e.frame, e.accepts).1;
      var v := Booked(w, e.frame, o);
      if o != Again && !e.frame.more {
        assert v.fates[..|v.fates| - 1] == w.fates;
        assert FramesOf(v.fates) == FramesOf(w.fates) + (w.cur + [e.frame]);
      }
    }
  }

  /** The first part of a message is refused only if no active pipe accepts it, and then nothing is dropped. */
  lemma NewMessagesAreSent(es: seq<Event>, frame: Frame, accepts: set<Pipe>)
    requires Careful(es) && DoAll(es).cur == []
    ensures var b := DoAll(es).b;
            && b.q.Ok() && !b.dropping && !b.q.more
            && var o, willing := AfterSend(b, frame, accepts).1, Front(b.q.items, b.q.active) * accepts;
               if willing != {} then o.Sent? && o.to in willing else o == Again
  {
    RunKeepsWhole(es);
    SendFinds(DoAll(es).b, frame, accepts);
  }

  /** Every flush publishes exactly the message that the user has just completed, on one pipe. */
  lemma FlushPublishesOneMessage(es: seq<Event>, frame: Frame, accepts: set<Pipe>, p: Pipe)
    requires Careful(es) && !frame.more && p in DoAll(es).b.q.items
    ensures var w, v := DoAll(es), Do(DoAll(es), Send(frame, accepts));
            && p in w.out && p in v.out
            && (v.out[p].published == w.out[p].published
                || (v.out[p].published == w.out[p].published + (w.cur + [frame]) && Whole(w.cur + [frame])))
            && (forall x :: x in w.out && x != p && v.out[p].published != w.out[p].published ==>
                  x in v.out && v.out[x].published == w.out[x].published)
  {
    RunKeepsWhole(es);
    AllQueued(DoAll(es));
    FlushAddsOneMessage(DoAll(es), frame, accepts);
  }

  /** The last part of a message that a pipe accepts publishes the whole message on that pipe. */
  lemma MessageIsPublished(es: seq<Event>, frame: Frame, accepts: set<Pipe>)
    requires Careful(es) && !frame.more && DoAll(es).b.q.Ok()
    requires DoAll(es).b.q.more && !DoAll(es).b.dropping ==> DoAll(es).b.q.active > 0
    requires AfterSend(DoAll(es).b, frame, accepts).1.Sent?
    ensures var w, to := DoAll(es), AfterSend(DoAll(es).b, frame, accepts).1.to;
            var v := Do(w, Send(frame, accepts));
            && to in w.out && to in v.out && v.out[to].published == w.out[to].published + (w.cur + [frame])
            && v.fates == w.fates + [Fate(w.cur + [frame], Some(to))] && v.cur == []
  {
    RunKeepsWhole(es);
    var w := DoAll(es);
    AllQueued(w);
    var o := AfterSend(w.b, frame, accepts).1;
    SendsFromCursor(w, frame, accepts);
    SendFlushes(w, frame, accepts);
    PutHere(w.out[o.to], w.cur, frame);
  }

  lemma FlushAddsOneMessage(w: World, frame: Frame, accepts: set<Pipe>)
    requires Atomic(w) && !frame.more
    ensures var v := Do(w, Send(frame, accepts));
            && v.out.Keys == w.out.Keys
            && ((forall x :: x in w.out ==> v.out[x].published == w.out[x].published)
                || exists to :: AddsMessage(w, v, to, w.cur + [frame]))
  {
    AllQueued(w);
    assert CanStep(w, Send(frame, accepts));
    var o := AfterSend(w.b, frame, accepts).1;
    if o.Sent? {
      SentAddsOneMessage(w, frame, accepts);
      assert AddsMessage(w, Do(w, Send(frame, accepts)), o.to, w.cur + [frame]);
    } else {
      NothingFlushed(w, frame, accepts);
    }
  }

  /** One message is published on `to`, and nothing elsewhere. */
  ghost predicate AddsMessage(w: World, v: World, to: Pipe, message: seq<Frame>) {
    && to in w.out && v.out.Keys == w.out.Keys && Whole(message)
    && v.out[to].published == w.out[to].published + message
    && forall x :: x in w.out && x != to ==> v.out[x].published == w.out[x].published
  }

  lemma SentAddsOneMessage(w: World, frame: Frame, accepts: set<Pipe>)
    requires Atomic(w) && CanStep(w, Send(frame, accepts)) && !frame.more && AfterSend(w.b, frame, accepts).1.Sent?
    requires forall p :: p in Front(w.b.q.items, w.b.q.active) ==> p in w.out
    ensures AddsMessage(w, Do(w, Send(frame, accepts)), AfterSend(w.b, frame, accepts).1.to, w.cur + [frame])
  {
    var o := AfterSend(w.b, frame, accepts).1;
    SendsFromCursor(w, frame, accepts);
    SendFlushes(w, frame, accepts);
    BookedWhole(w, frame, o);
    PutHere(w.out[o.to], w.cur, frame);
  }

  /** Only the pipe that took the frame publishes anything. */
  lemma SendFlushes(w: World, frame: Frame, accepts: set<Pipe>)
    requires Atomic(w) && CanStep(w, Send(frame, accepts)) && !frame.more && AfterSend(w.b, frame, accepts).1.Sent?
    requires AfterSend(w.b, frame, accepts).1.to in w.out
    requires forall p :: p in Front(w.b.q.items, w.b.q.active) ==> p in w.out
    ensures var to := AfterSend(w.b, frame, accepts).1.to;
            Do(w, Send(frame, accepts)).out == w.out[to := Flush(Write(w.out[to], frame, false))]
  {
  }

  lemma NothingFlushed(w: World, frame: Frame, accepts: set<Pipe>)
    requires Atomic(w) && CanStep(w, Send(frame, accepts)) && !AfterSend(w.b, frame, accepts).1.Sent?
    requires forall p :: p in Front(w.b.q.items, w.b.q.active) ==> p in w.out
    ensures var v := Do(w, Send(frame, accepts));
            v.out.Keys == w.out.Keys && forall x :: x in w.out ==> v.out[x].published == w.out[x].published
  {
  }

  lemma SendsFromCursor(w: World, frame: Frame, accepts: set<Pipe>)
    requires Atomic(w) && AfterSend(w.b, frame, accepts).1.Sent?
    ensures var to := AfterSend(w.b, frame, accepts).1.to;
            to in w.out && w.out[to].partial == w.cur && w.out[to].complete == []
  {
    AllQueued(w);
    if !w.b.q.more { SeekItems(w.b.q, accepts); }
    CursorMoves(w, Seek(w.b.q, accepts));
    PutKeeps(w.(b := w.b.(q := Seek(w.b.q, accepts))), frame);
    assert PipeOk(w, AfterSend(w.b, frame, accepts).1.to);
  }

  // ---------------------------------------------------------------- a run that tears a message

  lemma Then(es: seq<Event>, e: Event)
    ensures DoAll(es + [e]) == Do(DoAll(es), e)
  {
    assert (es + [e])[..|es|] == es;
  }

  lemma AttachesNext(w: World, p: Pipe)
    requires CanStep(w, Attach(p)) && w.b.q.active == |w.b.q.items|
    ensures Do(w, Attach(p)) == w.(b := w.b.(q := w.b.q.(items := w.b.q.items + [p], active := w.b.q.active + 1)),
                                   out := w.out[p := Empty()], used := w.used + {p})
  {
    var s := w.b.q.items + [p];
    assert Swapped(s, |s| - 1, |s| - 1) == s;
  }

  lemma TakenAtCursor(w: World, frame: Frame, accepts: set<Pipe>)
    requires CanStep(w, Send(frame, accepts)) && !w.b.dropping && w.b.q.active > 0
    requires w.b.q.items[w.b.q.current] in accepts && w.b.q.items[w.b.q.current] in w.out
    ensures Do(w, Send(frame, accepts)) == AfterPut(w, frame)
  {
    FrontGrows(w.b.q.items, w.b.q.current);
  }

  /** Pipes 1 and 2 have taken a message each, and pipe 3 the first part of one. */
  const Opening: seq<Event> :=
    [Attach(1), Attach(2), Attach(3)]
    + [Send(Frame(1, false), {1})] + [Send(Frame(2, false), {2})] + [Send(Frame(3, true), {3})]

  lemma ThreeAttached()
    ensures var w := DoAll([Attach(1), Attach(2), Attach(3)]);
            && w.b == Balancer(Fair([1, 2, 3], 3, 0, false), false) && w.cur == []
            && w.out == map[1 := Empty(), 2 := Empty(), 3 := Empty()]
  {
    var e1, e2, e3 := Attach(1), Attach(2), Attach(3);
    assert [e1] == [] + [e1] && [e1, e2] == [e1] + [e2] && [e1, e2, e3] == [e1, e2] + [e3];
    Then([], e1);
    Then([e1], e2);
    Then([e1, e2], e3);
    AttachesNext(Start, 1);
    AttachesNext(DoAll([e1]), 2);
    AttachesNext(DoAll([e1, e2]), 3);
  }

  /** The next frame goes to the pipe at place `k`, the one with number `k + 1`. */
  lemma Turn(es: seq<Event>, k: nat, frame: Frame)
    requires k < 3 && DoAll(es).b == Balancer(Fair([1, 2, 3], 3, k, false), false) && DoAll(es).out.Keys == {1, 2, 3}
    ensures var w, v := DoAll(es), DoAll(es + [Send(frame, {k + 1})]);
            var q := Write(w.out[k + 1], frame, frame.more);
            && v.b == Balancer(Fair([1, 2, 3], 3, if frame.more then k else (k + 1) % 3, frame.more), false)
            && v.out == w.out[k + 1 := if frame.more then q else Flush(q)]
  {
    assert Distinct([1, 2, 3]) && [1, 2, 3][k] == k + 1;
    Then(es, Send(frame, {k + 1}));
    TakenAtCursor(DoAll(es), frame, {k + 1});
  }

  lemma ThirdPipeOpen()
    ensures var w := DoAll(Opening);
            && w.b == Balancer(Fair([1, 2, 3], 3, 2, true), false) && w.out.Keys == {1, 2, 3}
            && w.out[1] == Queue([], [Frame(1, false)], [], [], false) && w.out[3].partial == [Frame(3, true)]
  {
    ThreeAttached();
    TwoSent([Attach(1), Attach(2), Attach(3)]);
    Turn([Attach(1), Attach(2), Attach(3)] + [Send(Frame(1, false), {1})] + [Send(Frame(2, false), {2})],
         2, Frame(3, true));
  }

  lemma TwoSent(es: seq<Event>)
    requires DoAll(es).b == Balancer(Fair([1, 2, 3], 3, 0, false), false)
    requires DoAll(es).out == map[1 := Empty(), 2 := Empty(), 3 := Empty()]
    ensures var w := DoAll(es + [Send(Frame(1, false), {1})] + [Send(Frame(2, false), {2})]);
            && w.b == Balancer(Fair([1, 2, 3], 3, 2, false), false) && w.out.Keys == {1, 2, 3}
            && w.out[1] == Queue([], [Frame(1, false)], [], [], false) && w.out[3] == Empty()
  {
    Turn(es, 0, Frame(1, false));
    Turn(es + [Send(Frame(1, false), {1})], 1, Frame(2, false));
  }

  /** Then pipe 2 goes away, and pipe 1 publishes the last part of the message without the first. */
  lemma TailOnAnotherPipe()
    ensures var w := DoAll(Opening + [Terminate(1)] + [Send(Frame(4, false), {1})]);
            && !MayGo(DoAll(Opening).b, 1) && 1 in w.out && 3 in w.out
            && w.out[1].published == [Frame(1, false), Frame(4, false)] && w.out[3].partial == [Frame(3, true)]
  {
    var w := DoAll(Opening);
    ThirdPipeOpen();
    Then(Opening, Terminate(1));
    Then(Opening + [Terminate(1)], Send(Frame(4, false), {1}));
    SecondPipeGoes(w);
    TakenAtCursor(Do(w, Terminate(1)), Frame(4, false), {1});
  }

  lemma SecondPipeGoes(w: World)
    requires w.b == Balancer(Fair([1, 2, 3], 3, 2, true), false) && w.out.Keys == {1, 2, 3}
    ensures var v := Do(w, Terminate(1));
            && v.b == Balancer(Fair([1, 3], 2, 0, true), false) && v.out == w.out - {2}
            && CanStep(v, Send(Frame(4, false), {1}))
  {
    assert Swapped([1, 2, 3], 1, 2) == [1, 3, 2] && Erased([1, 3, 2], 2) == [1, 3];
    assert Distinct([1, 2, 3]) && Distinct([1, 3]);
  }
}
