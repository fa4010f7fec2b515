/** Messages as the schedulers see them: frames, each of which tells whether more frames follow it. */
module Frames {
  import opened Bytes
  import opened PipeArray

  datatype Frame = Frame(body: nat, more: bool)

  predicate AllMore(frames: seq<Frame>) {
    forall f :: f in frames ==> f.more
  }

  /** A message ends with its only frame that has no successor. */
  predicate Whole(frames: seq<Frame>) {
    frames != [] && AllMore(frames[..|frames| - 1]) && !frames[|frames| - 1].more
  }

  /** A message of the user and the pipe it went through, if any. */
  datatype Fate = Fate(frames: seq<Frame>, pipe: Option<Pipe>)
}
