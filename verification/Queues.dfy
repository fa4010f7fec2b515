/**
 The contract of `ypipe_t`, the single-producer single-consumer queue that carries messages
 between two pipe ends and commands into a mailbox. Module `YPipe` shows that the lock-free
 code keeps this contract at every atomic step.
 */
module Queues {

  /** What the two threads agree on. `got` is the history of items already taken by the reader. */
  datatype Queue<T> = Queue(
    got: seq<T>,         // taken by the reader
    published: seq<T>,   // flushed and not yet taken
    complete: seq<T>,    // written and complete, but not flushed
    partial: seq<T>,     // written as incomplete, can still be unwritten
    asleep: bool)        // the reader found nothing and waits to be woken
  {
    /** Everything that was ever written as complete. */
    function Log(): seq<T> {
      got + published + complete
    }

    predicate Valid() {
      asleep ==> published == []
    }
  }

  function Empty<T>(): Queue<T> {
    Queue([], [], [], [], false)
  }

  function Write<T>(q: Queue<T>, item: T, incomplete: bool): Queue<T> {
    if incomplete then q.(partial := q.partial + [item])
    else q.(complete := q.complete + q.partial + [item], partial := [])
  }

  /** Drops the incomplete tail: what repeated `unwrite` calls leave. */
  function UnwriteAll<T>(q: Queue<T>): Queue<T> {
    q.(partial := [])
  }

  /** Publishes the complete items. */
  function Flush<T>(q: Queue<T>): Queue<T> {
    if q.complete == [] then q
    else q.(published := q.published + q.complete, complete := [], asleep := false)
  }

  /** What `flush` returns: false exactly when it published something to a sleeping reader. */
  predicate FlushFoundReaderAwake<T(==)>(q: Queue<T>) {
    q.complete == [] || !q.asleep
  }

  /** The reader's probe: it goes to sleep when nothing is published. */
  function Probe<T>(q: Queue<T>): Queue<T> {
    if q.published == [] then q.(asleep := true) else q
  }

  function Pop<T>(q: Queue<T>): Queue<T>
    requires q.published != []
  {
    q.(got := q.got + [q.published[0]], published := q.published[1..])
  }
}
