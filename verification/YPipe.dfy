/**
 `ypipe_t`: the lock-free queue between one writer thread and one reader thread. Elements are named
 by their position in the order in which they were pushed; the pointers `_w`, `_f`, `_r` and `_c` are
 positions, and NULL is None. The only shared variable is `_c`; every step below touches it at most
 once. At every step the queue keeps the contract of module `Queues`.
 */
module YPipe {
  import opened Bytes
  import opened Queues

  datatype Pipe<T> = Pipe(
    items: seq<T>,          // written and not unwritten; the terminator is at |items|
    front: nat,             // popped so far
    w: nat,                 // first element not flushed (writer)
    f: nat,                 // first element that must not be flushed yet (writer)
    r: Option<nat>,         // first element not prefetched (reader)
    c: Option<nat>,         // shared: end of the flushed elements, NULL if the reader is asleep
    flushing: bool)         // the writer found the reader asleep and has not yet set `c`
  {
    /** The end of what the reader may take. */
    function End(): nat {
      if c.Some? then c.value else w
    }

    predicate Valid() {
      && front <= w <= f <= |items|
      && (c.Some? ==> c.value == w)
      && (c.None? ==> front == w)
      && (r.Some? ==> front <= r.value <= w)
      && (flushing ==> c.None? && w < f)
    }

    /** What the two threads agree on. */
    function View(): Queue<T>
      requires Valid()
    {
      Queue(items[..front], items[front..End()], items[End()..f], items[f..], c.None?)
    }

    /** `cas`: returns the old value. */
    function CasOnFront(): Pipe<T> {
      if c == Some(front) then this.(c := None, r := Some(front)) else this.(r := c)
    }

    /** `check_read` looks at `_c` only when nothing is prefetched. */
    function CheckRead(): Pipe<T> {
      if Prefetched() then this else CasOnFront()
    }

    /** What `check_read` returns, in the state it leaves. */
    predicate Prefetched() {
      r.Some? && r.value != front
    }

    function Write(item: T, incomplete: bool): Pipe<T> {
      var p := this.(items := items + [item]);
      if incomplete then p else p.(f := |p.items|)
    }

    /** Takes back the newest element if it may still be unwritten. */
    function Unwrite(): Pipe<T> {
      if f >= |items| then this else this.(items := items[..|items| - 1])
    }

    /** `flush` up to and including its compare-and-swap; `flushing` says that the rest is still to come. */
    function FlushCas(): Pipe<T> {
      if w == f then this
      else if c == Some(w) then this.(c := Some(f), w := f)
      else this.(flushing := true)
    }

    /** The rest of `flush` when the reader was asleep; it returns false. */
    function FlushSet(): Pipe<T> {
      this.(c := Some(f), w := f, flushing := false)
    }

    function Take(): Pipe<T> {
      this.(front := front + 1)
    }
  }

  function New<T>(): Pipe<T> {
    Pipe([], 0, 0, 0, Some(0), Some(0), false)
  }

  lemma NewView<T>()
    ensures New<T>().Valid() && New<T>().View() == Empty()
  {
  }

  // ---------------------------------------------------------------- the writer

  lemma WriteKeeps<T>(p: Pipe<T>, item: T, incomplete: bool)
    requires p.Valid()
    ensures p.Write(item, incomplete).Valid()
    ensures p.Write(item, incomplete).View() == Write(p.View(), item, incomplete)
  {
    var q, e := p.Write(item, incomplete), p.End();
    assert q.items[..p.front] == p.items[..p.front];
    assert q.items[p.front..e] == p.items[p.front..e];
    assert q.items[e..p.f] == p.items[e..p.f];
    assert q.items[p.f..] == p.items[p.f..] + [item];
    if !incomplete {
      assert q.items[e..q.f] == p.items[e..p.f] + p.items[p.f..] + [item];
    }
  }

  /** Only the unfinished tail can be taken back, and all of it can. */
  lemma UnwriteKeeps<T>(p: Pipe<T>)
    requires p.Valid()
    ensures p.Unwrite().Valid()
    ensures var q := p.View();
            p.Unwrite().View() == if q.partial == [] then q else q.(partial := q.partial[..|q.partial| - 1])
  {
    var q := p.Unwrite();
    if p.f < |p.items| {
      assert q.items == p.items[..|p.items| - 1];
      var e := p.End();
      assert q.items[..p.front] == p.items[..p.front];
      assert q.items[p.front..e] == p.items[p.front..e];
      assert q.items[e..p.f] == p.items[e..p.f];
      assert q.items[p.f..] == p.items[p.f..][..|p.items| - p.f - 1];
    }
  }

  /**
   The compare-and-swap publishes what is complete unless the reader is asleep; then it changes
   nothing, and nothing wakes the reader until the writer goes on.
   */
  lemma FlushCasKeeps<T>(p: Pipe<T>)
    requires p.Valid() && !p.flushing
    ensures p.FlushCas().Valid()
    ensures p.FlushCas().flushing <==> !FlushFoundReaderAwake(p.View())
    ensures p.FlushCas().View() == if p.FlushCas().flushing then p.View() else Flush(p.View())
  {
    assert p.View().complete == [] <==> p.w == p.f;
    if p.w != p.f && p.c == Some(p.w) {
      assert p.items[p.front..p.f] == p.items[p.front..p.w] + p.items[p.w..p.f];
    }
  }

  lemma FlushSetKeeps<T>(p: Pipe<T>)
    requires p.Valid() && p.flushing
    ensures p.FlushSet().Valid() && p.FlushSet().View() == Flush(p.View())
  {
    assert p.items[p.front..p.f] == p.items[p.front..p.w] + p.items[p.w..p.f];
  }

  // ---------------------------------------------------------------- the reader

  /** `check_read` tells whether something is published, and puts the reader to sleep if not. */
  lemma CheckReadKeeps<T>(p: Pipe<T>)
    requires p.Valid()
    ensures p.CheckRead().Valid() && p.CheckRead().View() == Probe(p.View())
    ensures p.CheckRead().Prefetched() <==> p.View().published != []
  {
    assert p.View().published == [] <==> p.front == p.w;
  }

  lemma TakeKeeps<T>(p: Pipe<T>)
    requires p.Valid() && p.Prefetched()
    ensures p.View().published != [] && p.items[p.front] == p.View().published[0]
    ensures p.Take().Valid() && p.Take().View() == Pop(p.View())
  {
    assert p.items[..p.front + 1] == p.items[..p.front] + [p.items[p.front]];
    assert p.items[p.front + 1..p.w] == p.items[p.front..p.w][1..];
  }

  // ---------------------------------------------------------------- both

  datatype Step<T> =
    | DoWrite(item: T, incomplete: bool) | DoUnwrite | DoFlushCas | DoFlushSet    // the writer
    | DoCheckRead | DoTake                                                        // the reader

  /** The writer finishes a flush before it does anything else; the reader takes only what it has prefetched. */
  predicate Possible<T(==)>(p: Pipe<T>, step: Step<T>) {
    match step
    case DoFlushSet => p.flushing
    case DoTake => p.Prefetched()
    case DoCheckRead => true
    case _ => !p.flushing
  }

  function Apply<T(==)>(p: Pipe<T>, step: Step<T>): Pipe<T> {
    if !Possible(p, step) then p
    else
      match step
      case DoWrite(item, incomplete) => p.Write(item, incomplete)
      case DoUnwrite => p.Unwrite()
      case DoFlushCas => p.FlushCas()
      case DoFlushSet => p.FlushSet()
      case DoCheckRead => p.CheckRead()
      case DoTake => p.Take()
  }

  /** What the contract says about a step. */
  ghost predicate ByContract<T>(q: Queue<T>, step: Step<T>, q': Queue<T>) {
    match step
    case DoWrite(item, incomplete) => q' == Write(q, item, incomplete)
    case DoUnwrite => q' == if q.partial == [] then q else q.(partial := q.partial[..|q.partial| - 1])
    case DoFlushCas => q' == if FlushFoundReaderAwake(q) then Flush(q) else q
    case DoFlushSet => q.asleep && q' == Flush(q)
    case DoCheckRead => q' == Probe(q)
    case DoTake => q.published != [] && q' == Pop(q)
  }

  lemma StepRefines<T>(p: Pipe<T>, step: Step<T>)
    requires p.Valid()
    ensures Apply(p, step).Valid()
    ensures Possible(p, step) ==> ByContract(p.View(), step, Apply(p, step).View())
  {
    if Possible(p, step) {
      match step
      case DoWrite(item, incomplete) => WriteKeeps(p, item, incomplete);
      case DoUnwrite => UnwriteKeeps(p);
      case DoFlushCas => FlushCasKeeps(p);
      case DoFlushSet => FlushSetKeeps(p);
      case DoCheckRead => CheckReadKeeps(p);
      case DoTake => TakeKeeps(p);
    }
  }

  function Run<T(==)>(steps: seq<Step<T>>): Pipe<T> {
    if steps == [] then New() else Apply(Run(steps[..|steps| - 1]), steps[|steps| - 1])
  }

  /** Step `i` of a run does what the contract says. */
  ghost predicate StepOk<T>(steps: seq<Step<T>>, i: nat)
    requires i < |steps|
  {
    var p, q := Run(steps[..i]), Run(steps[..i + 1]);
    Possible(p, steps[i]) ==> p.Valid() && q.Valid() && ByContract(p.View(), steps[i], q.View())
  }

  /** In every interleaving each step does what the contract says. */
  lemma {:induction false} RunRefines<T>(steps: seq<Step<T>>)
    ensures Run(steps).Valid()
    ensures forall i: nat :: i < |steps| ==> StepOk(steps, i)
    decreases |steps|
  {
    if steps == [] {
      NewView<T>();
    } else {
      var n := |steps| - 1;
      RunRefines(steps[..n]);
      StepRefines(Run(steps[..n]), steps[n]);
      forall i: nat | i < |steps| ensures StepOk(steps, i) {
        if i < n {
          assert StepOk(steps[..n], i);
          assert steps[..n][..i] == steps[..i] && steps[..n][..i + 1] == steps[..i + 1] && steps[..n][i] == steps[i];
        } else {
          assert steps[..n + 1] == steps;
        }
      }
    }
  }

  /**
   The threads never touch the same element: the reader takes an element before `_w`, the writer
   fills the one at the end and takes back none before `_f`.
   */
  lemma NoSharedElement<T>(steps: seq<Step<T>>)
    ensures var p := Run(steps);
            && (p.Prefetched() ==> p.front < p.w <= |p.items|)
            && (p.Unwrite() != p ==> p.w < |p.items|)
  {
    RunRefines(steps);
  }
}
