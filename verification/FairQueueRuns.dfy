/**
 Fair queueing over whole runs: the user reads the messages of every pipe whole and in order, unless
 a pipe goes away in the middle of a message.
 */
module FairQueueRuns {
  import opened Bytes
  import opened Sequences
  import opened PipeArray
  import opened Frames
  import opened FairQueue

  /**
   The queue, the frames that wait in each pipe, the pipes that were terminated without delay and give
   out nothing more, the parts of the current message read so far, and the messages read before it.
   `put` lists the messages that were published in each pipe, `used` every pipe that was ever attached.
   */
  datatype World = World(q: Fair, waiting: map<Pipe, seq<Frame>>, silent: set<Pipe>, cur: seq<Frame>,
                         got: seq<Fate>, put: map<Pipe, seq<seq<Frame>>>, used: set<Pipe>)

  const Start := World(Fair([], 0, 0, false), map[], {}, [], [], map[], {})

  datatype Event =
    | Attach(p: Pipe) | Activate(i: nat) | Terminate(i: nat)
    | Publish(p: Pipe, frames: seq<Frame>) | Silence(p: Pipe)
    | HasIn | Recv

  /** What a read finds: the next frame of each pipe, and whether more frames follow it. */
  function Offered(w: World): map<Pipe, bool> {
    map p | p in w.waiting && p !in w.silent && w.waiting[p] != [] :: w.waiting[p][0].more
  }

  ghost predicate CanStep(w: World, e: Event) {
    && w.q.Ok()
    && match e
       case Attach(p) => p !in w.used
       case Activate(i) => w.q.active <= i < |w.q.items|
       case Terminate(i) => i < |w.q.items|
       case Publish(p, frames) => p in w.q.items && p in w.waiting && p in w.put && Whole(frames)
       case Silence(p) => true
       case HasIn => true
       case Recv => true
  }

  /** A frame of pipe `p` was read. */
  ghost function Booked(w: World, p: Pipe): World
    requires p in w.waiting && w.waiting[p] != []
  {
    var frame := w.waiting[p][0];
    var v := w.(waiting := w.waiting[p := w.waiting[p][1..]]);
    if frame.more then v.(cur := v.cur + [frame])
    else v.(cur := [], got := v.got + [Fate(v.cur + [frame], Some(p))])
  }

  ghost function AfterReading(w: World): World
    requires w.q.Ok()
  {
    var (r, from) := AfterRecv(w.q, Offered(w));
    if from.Got? && from.p in Offered(w) then Booked(w, from.p).(q := r) else w.(q := r)
  }

  ghost function Do(w: World, e: Event): World {
    if !CanStep(w, e) then w
    else
      match e
      case Attach(p) =>
        w.(q := AfterAttach(w.q, p), waiting := w.waiting[p := []], put := w.put[p := []],
           silent := w.silent - {p}, used := w.used + {p})
      case Activate(i) => w.(q := Activated(w.q, w.q.items[i], i))
      case Terminate(i) => w.(q := Removed(w.q, i))
      case Publish(p, frames) =>
        w.(waiting := w.waiting[p := w.waiting[p] + frames], put := w.put[p := w.put[p] + [frames]])
      case Silence(p) => w.(silent := w.silent + {p})
      case HasIn => if w.q.more then w else w.(q := Seek(w.q, Offered(w).Keys))
      case Recv => AfterReading(w)
  }

  ghost function DoAll(es: seq<Event>): World {
    if es == [] then Start else Do(DoAll(es[..|es| - 1]), es[|es| - 1])
  }

  /** In the middle of a message a pipe may go away unless it is the one that is read or the cursor jumps. */
  predicate MayGo(q: Fair, i: nat) {
    q.more ==> i != q.current && !Jumps(q, i)
  }

  /** Only such pipes went away. */
  ghost predicate Careful(es: seq<Event>) {
    es != [] ==>
      var w, e := DoAll(es[..|es| - 1]), es[|es| - 1];
      Careful(es[..|es| - 1]) && (e.Terminate? && e.i < |w.q.items| ==> MayGo(w.q, e.i))
  }

  /** The messages read from `p`, in order. */
  ghost function ReadFrom(got: seq<Fate>, p: Pipe): seq<seq<Frame>> {
    if got == [] then []
    else
      var last := got[|got| - 1];
      ReadFrom(got[..|got| - 1], p) + if last.pipe == Some(p) then [last.frames] else []
  }

  function Flatten(messages: seq<seq<Frame>>): seq<Frame> {
    if messages == [] then [] else messages[0] + Flatten(messages[1..])
  }

  /** The frames of the open message that were read from `p`. */
  ghost function Open(w: World, p: Pipe): seq<Frame>
    requires w.q.Ok()
  {
    if w.q.more && w.q.active > 0 && p == w.q.items[w.q.current] then w.cur else []
  }

  ghost predicate AllWhole(messages: seq<seq<Frame>>) {
    forall m :: m in messages ==> Whole(m)
  }

  /** The messages of a pipe are read whole and in order; what was read of the next one is the open message. */
  ghost predicate PipeOk(w: World, p: Pipe)
    requires w.q.Ok()
  {
    && p in w.waiting && p in w.put && p in w.used && AllWhole(w.put[p])
    && ReadFrom(w.got, p) <= w.put[p]
    && Open(w, p) + w.waiting[p] == Flatten(w.put[p][|ReadFrom(w.got, p)|..])
  }

  ghost predicate Steady(w: World) {
    && w.q.Ok() && (w.q.more ==> w.q.active > 0)
    && (w.q.more <==> w.cur != []) && AllMore(w.cur)
    && (forall p {:trigger PipeOk(w, p)} :: p in w.q.items ==> PipeOk(w, p))
    && (forall f :: f in w.got ==> f.pipe.Some? && f.pipe.value in w.used)
  }

  // ---------------------------------------------------------------- messages and frames

  lemma {:induction false} NothingRead(got: seq<Fate>, p: Pipe)
    requires forall f :: f in got ==> f.pipe != Some(p)
    ensures ReadFrom(got, p) == []
  {
    if got != [] { NothingRead(got[..|got| - 1], p); }
  }

  lemma ReadAppend(got: seq<Fate>, f: Fate, p: Pipe)
    ensures ReadFrom(got + [f], p) == ReadFrom(got, p) + if f.pipe == Some(p) then [f.frames] else []
  {
    assert (got + [f])[..|got|] == got;
  }

  lemma {:induction false} FlattenAppend(messages: seq<seq<Frame>>, m: seq<Frame>)
    ensures Flatten(messages + [m]) == Flatten(messages) + m
  {
    if messages == [] {
      assert [m][1..] == [];
    } else {
      FlattenAppend(messages[1..], m);
      assert (messages + [m])[1..] == messages[1..] + [m];
    }
  }

  lemma OnlyLastEnds(m: seq<Frame>)
    requires Whole(m)
    ensures forall k :: 0 <= k < |m| ==> (m[k].more <==> k < |m| - 1)
  {
    forall k | 0 <= k < |m| - 1 ensures m[k].more { assert m[k] == m[..|m| - 1][k]; }
  }

  /** Of two whole messages neither is the beginning of the other. */
  lemma SameBeginning(m: seq<Frame>, a: seq<Frame>, all: seq<Frame>)
    requires Whole(m) && Whole(a) && m <= all && a <= all
    ensures m == a
  {
    OnlyLastEnds(m);
    OnlyLastEnds(a);
    assert all[|m| - 1] == m[|m| - 1] && all[|a| - 1] == a[|a| - 1];
    assert forall k :: 0 <= k < |m| && k < |a| ==> m[k] == all[k] == a[k];
  }

  /** A message is recognised by its first frame without successor. */
  lemma FirstMessage(m: seq<Frame>, rest: seq<Frame>, messages: seq<seq<Frame>>)
    requires Whole(m) && AllWhole(messages) && m + rest == Flatten(messages)
    ensures messages != [] && messages[0] == m && Flatten(messages[1..]) == rest
  {
    assert messages[0] in messages;
    SameBeginning(m, messages[0], m + rest);
    assert rest == (m + rest)[|m|..];
  }

  /** An open message is not all that was published. */
  lemma OpenHasMore(open: seq<Frame>, rest: seq<Frame>, messages: seq<seq<Frame>>)
    requires AllMore(open) && open != [] && AllWhole(messages) && open + rest == Flatten(messages)
    ensures rest != []
  {
    LastFrame(messages);
    assert open[|open| - 1] in open && (rest == [] ==> open + rest == open);
  }

  lemma {:induction false} LastFrame(messages: seq<seq<Frame>>)
    requires AllWhole(messages)
    ensures var all := Flatten(messages); all != [] ==> !all[|all| - 1].more
  {
    if messages != [] {
      assert messages[0] in messages;
      LastFrame(messages[1..]);
    }
  }

  // ---------------------------------------------------------------- every step keeps messages whole

  /** The frames and the books stay, and so do the attached pipes and the place of the open message. */
  lemma CursorMoves(w: World, q: Fair)
    requires Steady(w) && q.Ok() && q.more == w.q.more
    requires forall p :: p in q.items ==> p in w.q.items
    requires q.more ==> q.active > 0 && q.items[q.current] == w.q.items[w.q.current]
    ensures Steady(w.(q := q))
  {
    var v := w.(q := q);
    forall p | p in q.items ensures PipeOk(v, p) { assert PipeOk(w, p); }
  }

  lemma AttachKeepsSteady(w: World, p: Pipe)
    requires Steady(w) && p !in w.used
    ensures Steady(Do(w, Attach(p)))
  {
    forall x | x in w.q.items ensures x != p { assert PipeOk(w, x); }
    AttachKeeps(w.q, p);
    var v := Do(w, Attach(p));
    NothingRead(w.got, p);
    forall x | x in v.q.items ensures PipeOk(v, x) {
      if x != p { assert PipeOk(w, x); }
    }
  }

  lemma PublishHere(w: World, p: Pipe, frames: seq<Frame>)
    requires Steady(w) && p in w.q.items && p in w.waiting && p in w.put && Whole(frames)
    ensures PipeOk(w.(waiting := w.waiting[p := w.waiting[p] + frames], put := w.put[p := w.put[p] + [frames]]), p)
  {
    assert PipeOk(w, p);
    var k := |ReadFrom(w.got, p)|;
    var rest := w.put[p][k..];
    FlattenAppend(rest, frames);
    assert (w.put[p] + [frames])[k..] == rest + [frames];
    assert Open(w, p) + (w.waiting[p] + frames) == Open(w, p) + w.waiting[p] + frames;
  }

  lemma PublishKeeps(w: World, p: Pipe, frames: seq<Frame>)
    requires Steady(w)
    ensures Steady(Do(w, Publish(p, frames)))
  {
    if CanStep(w, Publish(p, frames)) {
      var v := Do(w, Publish(p, frames));
      PublishHere(w, p, frames);
      forall x | x in v.q.items ensures PipeOk(v, x) {
        if x != p { assert PipeOk(w, x); }
      }
    }
  }

  /** The cursor stands on a pipe with a frame, where the open message is. */
  ghost predicate AtFrame(w: World, r: Fair) {
    && Steady(w.(q := r)) && r.active > 0
    && r.items[r.current] in w.waiting && w.waiting[r.items[r.current]] != []
  }

  lemma ReadAtCursor(w: World)
    requires AtFrame(w, w.q)
    ensures var p := w.q.items[w.q.current];
            var v := Booked(w, p).(q := Fetched(w.q, w.waiting[p][0].more));
            v.q.Ok() && PipeOk(v, p)
  {
    var p := w.q.items[w.q.current];
    assert PipeOk(w, p);
    var frame, all := w.waiting[p][0], w.put[p][|ReadFrom(w.got, p)|..];
    FetchedDistance(w.q, frame.more, w.q.current);
    assert w.cur + w.waiting[p] == w.cur + [frame] + w.waiting[p][1..];
    if !frame.more {
      LastPart(w.put[p], |ReadFrom(w.got, p)|, w.cur, frame, w.waiting[p][1..]);
      ReadAppend(w.got, Fate(w.cur + [frame], Some(p)), p);
    }
  }

  /** The last part completes the next message of the pipe. */
  lemma LastPart(put: seq<seq<Frame>>, k: nat, cur: seq<Frame>, frame: Frame, rest: seq<Frame>)
    requires k <= |put| && AllWhole(put) && AllMore(cur) && !frame.more && cur + [frame] + rest == Flatten(put[k..])
    ensures k < |put| && put[k] == cur + [frame] && rest == Flatten(put[k + 1..])
  {
    assert (cur + [frame])[..|cur|] == cur;
    forall m | m in put[k..] ensures Whole(m) { }
    FirstMessage(cur + [frame], rest, put[k..]);
    assert put[k..][1..] == put[k + 1..];
  }

  lemma ReadElsewhere(w: World, x: Pipe)
    requires AtFrame(w, w.q) && x in w.q.items && x != w.q.items[w.q.current]
    ensures var p := w.q.items[w.q.current];
            var v := Booked(w, p).(q := Fetched(w.q, w.waiting[p][0].more));
            v.q.Ok() && PipeOk(v, x)
  {
    var p := w.q.items[w.q.current];
    assert PipeOk(w, x);
    FetchedDistance(w.q, w.waiting[p][0].more, w.q.current);
    ReadAppend(w.got, Fate(w.cur + [w.waiting[p][0]], Some(p)), x);
  }

  lemma ReadKeeps(w: World)
    requires AtFrame(w, w.q)
    ensures var p := w.q.items[w.q.current]; Steady(Booked(w, p).(q := Fetched(w.q, w.waiting[p][0].more)))
  {
    var p := w.q.items[w.q.current];
    var v := Booked(w, p).(q := Fetched(w.q, w.waiting[p][0].more));
    assert PipeOk(w, p);
    ReadAtCursor(w);
    forall x | x in v.q.items ensures PipeOk(v, x) {
      if x != p { ReadElsewhere(w, x); }
    }
  }

  lemma RecvKeeps(w: World)
    requires Steady(w)
    ensures Steady(Do(w, Recv))
  {
    var frames := Offered(w);
    if w.q.NextPart(frames.Keys) {
      var r := Seek(w.q, frames.Keys);
      if !w.q.more { SeekItems(w.q, frames.Keys); }
      CursorMoves(w, r);
      if r.active > 0 { ReadKeeps(w.(q := r)); }
    }
  }

  lemma TerminateKeeps(w: World, i: nat)
    requires Steady(w) && i < |w.q.items| && MayGo(w.q, i)
    ensures Steady(Do(w, Terminate(i)))
  {
    RemovedKeeps(w.q, i);
    if w.q.active > 0 { CursorStaysExactly(w.q, i); }
    CursorMoves(w, Removed(w.q, i));
  }

  lemma StepKeepsSteady(w: World, e: Event)
    requires Steady(w) && (e.Terminate? && e.i < |w.q.items| ==> MayGo(w.q, e.i))
    ensures Steady(Do(w, e))
  {
    if CanStep(w, e) {
      match e
      case Attach(p) => AttachKeepsSteady(w, p);
      case Activate(i) =>
        Joins(w.q.items, i, w.q.active);
        CursorMoves(w, Activated(w.q, w.q.items[i], i));
      case Terminate(i) => TerminateKeeps(w, i);
      case Publish(p, frames) => PublishKeeps(w, p, frames);
      case Silence(p) =>
        forall x | x in w.q.items ensures PipeOk(Do(w, e), x) { assert PipeOk(w, x); }
      case HasIn =>
        if !w.q.more {
          SeekItems(w.q, Offered(w).Keys);
          CursorMoves(w, Seek(w.q, Offered(w).Keys));
        }
      case Recv => RecvKeeps(w);
    }
  }

  lemma {:induction false} RunKeepsSteady(es: seq<Event>)
    requires Careful(es)
    ensures Steady(DoAll(es))
  {
    if es != [] {
      RunKeepsSteady(es[..|es| - 1]);
      StepKeepsSteady(DoAll(es[..|es| - 1]), es[|es| - 1]);
    }
  }

  // ---------------------------------------------------------------- when messages are torn

  /** A pipe that goes away leaves messages whole exactly if the message goes on with its own pipe. */
  lemma TerminateKeepsExactly(w: World, i: nat)
    requires Steady(w) && i < |w.q.items|
    ensures Steady(Do(w, Terminate(i))) <==> MayGo(w.q, i)
  {
    if MayGo(w.q, i) {
      TerminateKeeps(w, i);
    } else {
      RemovedKeeps(w.q, i);
      CursorStaysExactly(w.q, i);
      var v := Do(w, Terminate(i));
      if v.q.active > 0 {
        var p := v.q.items[v.q.current];
        assert PipeOk(w, p) && Open(w, p) == [] && Open(v, p) == w.cur;
        assert !PipeOk(v, p);
      }
    }
  }

  /** Messages are whole at every point of the run. */
  ghost predicate AlwaysSteady(es: seq<Event>) {
    Steady(DoAll(es)) && (es != [] ==> AlwaysSteady(es[..|es| - 1]))
  }

  /** A run keeps all messages whole, at every point, exactly if all its removals are of that kind. */
  lemma {:induction false} RunIsSteadyExactly(es: seq<Event>)
    ensures AlwaysSteady(es) <==> Careful(es)
  {
    if es == [] {
      assert DoAll([]) == Start;
    } else {
      var front, e := es[..|es| - 1], es[|es| - 1];
      RunIsSteadyExactly(front);
      if Careful(front) {
        RunKeepsSteady(front);
        LastStepExactly(DoAll(front), e);
      }
    }
  }

  lemma LastStepExactly(w: World, e: Event)
    requires Steady(w)
    ensures Steady(Do(w, e)) <==> (e.Terminate? && e.i < |w.q.items| ==> MayGo(w.q, e.i))
  {
    if e.Terminate? && e.i < |w.q.items| { TerminateKeepsExactly(w, e.i); } else { StepKeepsSteady(w, e); }
  }

  // ---------------------------------------------------------------- what a user can rely on

  /**
   The messages read from a pipe are the first ones that were published in it, each whole and in order.
   The parts read so far of the open message begin the next message of the pipe at the cursor.
   */
  lemma MessagesAreReadWhole(es: seq<Event>, p: Pipe)
    requires Careful(es) && p in DoAll(es).q.items
    ensures var w := DoAll(es);
            && p in w.put && ReadFrom(w.got, p) <= w.put[p] && w.q.Ok() && (w.q.more ==> w.q.active > 0)
            && (w.q.more && p == w.q.items[w.q.current] ==>
                  |ReadFrom(w.got, p)| < |w.put[p]| && w.cur < w.put[p][|ReadFrom(w.got, p)|])
  {
    RunKeepsSteady(es);
    var w := DoAll(es);
    assert PipeOk(w, p);
    if w.q.more && p == w.q.items[w.q.current] {
      var all := w.put[p][|ReadFrom(w.got, p)|..];
      forall m | m in all ensures Whole(m) { }
      OpenIsBeginning(w.cur, w.waiting[p], all);
    }
  }

  lemma OpenIsBeginning(open: seq<Frame>, rest: seq<Frame>, messages: seq<seq<Frame>>)
    requires AllMore(open) && open != [] && AllWhole(messages) && open + rest == Flatten(messages)
    ensures messages != [] && open < messages[0]
  {
    var a, all := messages[0], open + rest;
    assert a in messages && all == a + Flatten(messages[1..]);
    OnlyLastEnds(a);
    assert forall k :: 0 <= k < |open| ==> all[k] == open[k] && open[k].more;
    assert all[|a| - 1] == a[|a| - 1];
    assert open == all[..|open|] && a == all[..|a|];
  }

  /**
   If an active pipe has a frame and the assertion holds, `recv` takes the first frame that waits in such
   a pipe: it goes on with the open message, or completes it.
   */
  lemma RecvTakesAFrame(es: seq<Event>)
    requires Careful(es) && DoAll(es).q.Ok() && AfterRecv(DoAll(es).q, Offered(DoAll(es))).1 != Aborted
    ensures var w, v := DoAll(es), Do(DoAll(es), Recv);
            var ready := Ready(w);
            && (ready == {} ==> v == w.(q := v.q))
            && (ready != {} ==> exists p :: p in ready && TookFrom(w, v, p))
  {
    RunKeepsSteady(es);
    TakesAFrame(DoAll(es));
  }

  lemma TakesAFrame(w: World)
    requires w.q.Ok() && AfterRecv(w.q, Offered(w)).1 != Aborted
    ensures var v, ready := Do(w, Recv), Ready(w);
            (ready == {} ==> v == w.(q := v.q)) && (ready != {} ==> exists p :: p in ready && TookFrom(w, v, p))
  {
    RecvFinds(w.q, Offered(w));
    var from := AfterRecv(w.q, Offered(w)).1;
    assert Ready(w) == Front(w.q.items, w.q.active) * Offered(w).Keys;
    if from.Got? { assert TookFrom(w, Do(w, Recv), from.p); }
  }

  /** The active pipes that give out a frame. */
  ghost function Ready(w: World): set<Pipe>
    requires w.q.Ok()
  {
    set p | p in Front(w.q.items, w.q.active) && p in w.waiting && w.waiting[p] != [] && p !in w.silent
  }

  /** A pipe that becomes active with a frame can be read, as all active pipes before it. */
  lemma ActivatedIsReady(w: World, i: nat)
    requires w.q.Ok() && w.q.active <= i < |w.q.items|
    ensures var v, p := Do(w, Activate(i)), w.q.items[i];
            && v.q.Ok()
            && Ready(v) == Ready(w) + if p in w.waiting && w.waiting[p] != [] && p !in w.silent then {p} else {}
  {
    Joins(w.q.items, i, w.q.active);
  }

  /** Looking between messages keeps every pipe that can be read active, and some pipe only if there is one. */
  lemma LookingKeepsReady(w: World)
    requires w.q.Ok() && !w.q.more
    ensures var v := Do(w, HasIn); v.q.Ok() && Ready(v) == Ready(w) && (v.q.active > 0 <==> Ready(w) != {})
  {
    SeekFinds(w.q, Offered(w).Keys);
    assert Ready(w) == Front(w.q.items, w.q.active) * Offered(w).Keys;
  }

  /** The first frame waiting in `p` is read and nothing else changes in the pipes. */
  ghost predicate TookFrom(w: World, v: World, p: Pipe) {
    && p in w.waiting && w.waiting[p] != [] && v.waiting == w.waiting[p := w.waiting[p][1..]]
    && v.put == w.put && v.silent == w.silent && v.used == w.used
    && var frame := w.waiting[p][0];
       if frame.more then v.cur == w.cur + [frame] && v.got == w.got
       else v.cur == [] && v.got == w.got + [Fate(w.cur + [frame], Some(p))]
  }

  /** The assertion in `recvpipe` fails exactly if the pipe of the open message was terminated without delay. */
  lemma AssertionFailsExactly(es: seq<Event>)
    requires Careful(es)
    ensures var w := DoAll(es);
            && w.q.Ok() && (w.q.more ==> w.q.active > 0)
            && (AfterRecv(w.q, Offered(w)).1 == Aborted <==> w.q.more && w.q.items[w.q.current] in w.silent)
  {
    RunKeepsSteady(es);
    var w := DoAll(es);
    if w.q.more {
      var p := w.q.items[w.q.current];
      assert PipeOk(w, p);
      var all := w.put[p][|ReadFrom(w.got, p)|..];
      forall m | m in all ensures Whole(m) { }
      OpenHasMore(w.cur, w.waiting[p], all);
    }
  }

  // ---------------------------------------------------------------- what the pipes were told

  /** The messages published in `p`, while it was attached, and whether it was silenced. */
  ghost function PublishedIn(es: seq<Event>, p: Pipe): seq<seq<Frame>> {
    if es == [] then []
    else
      var prev, e := es[..|es| - 1], es[|es| - 1];
      PublishedIn(prev, p) +
      if e.Publish? && e.p == p && Whole(e.frames) && p in DoAll(prev).q.items then [e.frames] else []
  }

  ghost predicate SilencedIn(es: seq<Event>, p: Pipe) {
    es != [] &&
    var prev, e := es[..|es| - 1], es[|es| - 1];
    if e == Attach(p) && p !in DoAll(prev).used then false else e == Silence(p) || SilencedIn(prev, p)
  }

  ghost predicate Heard(es: seq<Event>, p: Pipe) {
    var w := DoAll(es);
    && (p in w.q.items ==> p in w.used) && (p in w.used ==> p in w.put && p in w.waiting)
    && (p !in w.used ==> PublishedIn(es, p) == []) && (p in w.used ==> w.put[p] == PublishedIn(es, p))
    && (p in w.silent <==> SilencedIn(es, p))
  }

  /** The books of the messages and of the silent pipes say what happened. */
  lemma {:induction false} EventsAreHeard(es: seq<Event>, p: Pipe)
    requires Careful(es)
    ensures Heard(es, p)
  {
    if es != [] {
      var prev, e := es[..|es| - 1], es[|es| - 1];
      LastEvent(es);
      EventsAreHeard(prev, p);
      AttachedIsUsed(prev, p);
      AttachedIsUsed(es, p);
      EventIsHeard(prev, e, p);
    }
  }

  lemma LastEvent(es: seq<Event>)
    requires es != []
    ensures es == es[..|es| - 1] + [es[|es| - 1]]
  {
  }

  lemma AttachedIsUsed(es: seq<Event>, p: Pipe)
    requires Careful(es)
    ensures DoAll(es).q.Ok() && (p in DoAll(es).q.items ==> p in DoAll(es).used)
  {
    RunKeepsSteady(es);
    if p in DoAll(es).q.items { assert PipeOk(DoAll(es), p); }
  }

  lemma EventIsHeard(es: seq<Event>, e: Event, p: Pipe)
    requires Heard(es, p) && DoAll(es).q.Ok()
    requires p in Do(DoAll(es), e).q.items ==> p in Do(DoAll(es), e).used
    ensures Heard(es + [e], p)
  {
    var all := es + [e];
    assert all[..|all| - 1] == es && all[|all| - 1] == e;
  }

  /** What a user reads from a pipe is the first messages that were published in it. */
  lemma ReadIsPublished(es: seq<Event>, p: Pipe)
    requires Careful(es) && p in DoAll(es).q.items
    ensures ReadFrom(DoAll(es).got, p) <= PublishedIn(es, p)
  {
    EventsAreHeard(es, p);
    MessagesAreReadWhole(es, p);
  }

  // ---------------------------------------------------------------- a run that mixes two messages

  lemma Then(es: seq<Event>, e: Event)
    ensures DoAll(es + [e]) == Do(DoAll(es), e)
  {
    assert (es + [e])[..|es|] == es;
  }

  /** Pipe 1 has a message of two parts and pipe 2 one of a single part. */
  const TwoPipes: seq<Event> :=
    [] + [Attach(1)] + [Attach(2)]
    + [Publish(1, [Frame(7, true), Frame(8, false)])] + [Publish(2, [Frame(9, false)])]

  lemma TwoPipesWait()
    ensures var m1, m2 := [Frame(7, true), Frame(8, false)], [Frame(9, false)];
            DoAll(TwoPipes) == World(Fair([1, 2], 2, 0, false), map[1 := m1, 2 := m2], {}, [], [],
                                     map[1 := [m1], 2 := [m2]], {1, 2})
  {
    var m1, m2 := [Frame(7, true), Frame(8, false)], [Frame(9, false)];
    var a, b, c := [] + [Attach(1)], [] + [Attach(1)] + [Attach(2)], [] + [Attach(1)] + [Attach(2)] + [Publish(1, m1)];
    Then([], Attach(1));
    AttachesNext(Start, 1);
    Then(a, Attach(2));
    AttachesNext(DoAll(a), 2);
    Then(b, Publish(1, m1));
    Then(c, Publish(2, m2));
    BothPublish(DoAll(b));
  }

  lemma AttachesNext(w: World, p: Pipe)
    requires CanStep(w, Attach(p)) && w.q.active == |w.q.items|
    ensures Do(w, Attach(p)) == w.(q := w.q.(items := w.q.items + [p], active := w.q.active + 1), used := w.used + {p},
                                   waiting := w.waiting[p := []], put := w.put[p := []], silent := w.silent - {p})
  {
    var s := w.q.items + [p];
    assert Swapped(s, |s| - 1, |s| - 1) == s;
  }

  lemma PublishesNext(w: World, p: Pipe, m: seq<Frame>)
    requires CanStep(w, Publish(p, m)) && w.waiting[p] == [] && w.put[p] == []
    ensures Do(w, Publish(p, m)) == w.(waiting := w.waiting[p := m], put := w.put[p := [m]])
  {
    assert [] + m == m && [] + [m] == [m];
  }

  lemma BothPublish(w: World)
    requires w.q == Fair([1, 2], 2, 0, false) && w.waiting == map[1 := [], 2 := []] && w.put == map[1 := [], 2 := []]
    ensures var m1, m2 := [Frame(7, true), Frame(8, false)], [Frame(9, false)];
            Do(Do(w, Publish(1, m1)), Publish(2, m2))
            == w.(waiting := map[1 := m1, 2 := m2], put := map[1 := [m1], 2 := [m2]])
  {
    var m1, m2 := [Frame(7, true), Frame(8, false)], [Frame(9, false)];
    assert w.q.Ok() && 1 in w.q.items && 2 in w.q.items;
    TwoWhole();
    PublishesNext(w, 1, m1);
    PublishesNext(Do(w, Publish(1, m1)), 2, m2);
  }

  lemma TwoWhole()
    ensures Whole([Frame(7, true), Frame(8, false)]) && Whole([Frame(9, false)])
  {
    assert [Frame(7, true), Frame(8, false)][..1] == [Frame(7, true)];
  }

  /** The first part is read, pipe 1 goes away, and what is read next is taken as the rest of its message. */
  lemma TwoMessagesMixed()
    ensures DoAll(TwoPipes + [Recv] + [Terminate(0)] + [Recv]).got == [Fate([Frame(7, true), Frame(9, false)], Some(2))]
    ensures !MayGo(DoAll(TwoPipes + [Recv]).q, 0)
  {
    TwoPipesWait();
    Then(TwoPipes, Recv);
    Then(TwoPipes + [Recv], Terminate(0));
    Then(TwoPipes + [Recv] + [Terminate(0)], Recv);
    FirstPartRead(DoAll(TwoPipes));
    OtherPipeRead(DoAll(TwoPipes + [Recv]));
  }

  lemma FirstPartRead(w: World)
    requires w.q == Fair([1, 2], 2, 0, false) && w.silent == {} && w.cur == [] && w.got == []
    requires w.waiting == map[1 := [Frame(7, true), Frame(8, false)], 2 := [Frame(9, false)]]
    ensures var v := Do(w, Recv);
            && v.q == Fair([1, 2], 2, 0, true) && v.silent == {} && v.cur == [Frame(7, true)] && v.got == []
            && v.waiting == map[1 := [Frame(8, false)], 2 := [Frame(9, false)]]
  {
    assert w.q.Ok() && Offered(w) == map[1 := true, 2 := false];
  }

  lemma OtherPipeRead(w: World)
    requires w.q == Fair([1, 2], 2, 0, true) && w.silent == {} && w.cur == [Frame(7, true)] && w.got == []
    requires w.waiting == map[1 := [Frame(8, false)], 2 := [Frame(9, false)]]
    ensures Do(Do(w, Terminate(0)), Recv).got == [Fate([Frame(7, true), Frame(9, false)], Some(2))]
  {
    OpenMessageCanChangePipe();
    var v := Do(w, Terminate(0));
    assert v.q == Fair([2], 1, 0, true) && v.q.Ok() && v.waiting == w.waiting;
    assert 2 in Offered(v) && Offered(v)[2] == false;
    assert AfterRecv(v.q, Offered(v)) == (Fair([2], 1, 0, false), Got(2));
    assert v.waiting[2][0] == Frame(9, false) && v.cur == [Frame(7, true)] && v.got == [];
    assert Booked(v, 2).got == [] + [Fate([Frame(7, true)] + [Frame(9, false)], Some(2))];
    assert CanStep(v, Recv) && Do(v, Recv) == AfterReading(v) == Booked(v, 2).(q := Fair([2], 1, 0, false));
    assert [Frame(7, true)] + [Frame(9, false)] == [Frame(7, true), Frame(9, false)];
  }
}
